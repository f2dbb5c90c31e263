/** Reading memory out of a core file: the map list, its sorted array with binary
    search, and the chunked reader, against a flat image of memory. */
module CoreImage {
  import opened Wrappers
  import opened Bytes
  import opened Bits

  datatype MapInfo = MapInfo(fd: int, offset: nat, vaddr: nat, memsz: nat)

  predicate Contains(m: MapInfo, addr: nat) {
    m.vaddr <= addr < m.vaddr + m.memsz
  }

  /** One of two maps ends before the other starts. */
  predicate Apart(a: MapInfo, b: MapInfo) {
    (a.vaddr < b.vaddr && a.vaddr + a.memsz <= b.vaddr) || (b.vaddr < a.vaddr && b.vaddr + b.memsz <= a.vaddr)
  }

  predicate Disjoint(maps: seq<MapInfo>) {
    forall a, b :: a in maps && b in maps ==> a == b || Apart(a, b)
  }

  predicate Sorted(maps: seq<MapInfo>) {
    forall i, j :: 0 <= i < j < |maps| ==> maps[i].vaddr <= maps[j].vaddr
  }

  /** First map of a list that contains the address. */
  function Find(maps: seq<MapInfo>, addr: nat): (r: Option<MapInfo>)
    ensures r.Some? ==> r.value in maps && Contains(r.value, addr)
    ensures r.None? ==> forall m :: m in maps ==> !Contains(m, addr)
  {
    if maps == [] then None
    else if Contains(maps[0], addr) then Some(maps[0])
    else Find(maps[1..], addr)
  }

  /** What a lookup means: an ordinary map if one contains the address, and the
      class-sharing maps only if none does. */
  function Lookup(maps: seq<MapInfo>, shared: seq<MapInfo>, addr: nat): Option<MapInfo> {
    var m := Find(maps, addr);
    if m.Some? then m else Find(shared, addr)
  }

  // ----- sorting -----

  /** One way to sort: it shows that what Qsort promises can be had. */
  function Insert(m: MapInfo, s: seq<MapInfo>): seq<MapInfo> {
    if s == [] || m.vaddr <= s[0].vaddr then [m] + s else [s[0]] + Insert(m, s[1..])
  }

  function Sort(s: seq<MapInfo>): seq<MapInfo> {
    if s == [] then [] else Insert(s[0], Sort(s[1..]))
  }

  lemma {:induction false} InsertPermutes(m: MapInfo, s: seq<MapInfo>)
    ensures multiset(Insert(m, s)) == multiset(s) + multiset{m}
  {
    if s != [] && m.vaddr > s[0].vaddr {
      InsertPermutes(m, s[1..]);
      assert s == [s[0]] + s[1..];
    }
  }

  lemma {:induction false} InsertSorted(m: MapInfo, s: seq<MapInfo>)
    requires Sorted(s)
    ensures Sorted(Insert(m, s))
  {
    if s != [] && m.vaddr > s[0].vaddr {
      InsertSorted(m, s[1..]);
      InsertBounded(m, s[1..], s[0].vaddr);
    }
  }

  lemma {:induction false} InsertBounded(m: MapInfo, s: seq<MapInfo>, low: nat)
    requires low <= m.vaddr && forall j :: 0 <= j < |s| ==> low <= s[j].vaddr
    ensures forall j :: 0 <= j < |Insert(m, s)| ==> low <= Insert(m, s)[j].vaddr
  {
    if s != [] && m.vaddr > s[0].vaddr {
      InsertBounded(m, s[1..], low);
    }
  }

  lemma {:induction false} SortCorrect(s: seq<MapInfo>)
    ensures Sorted(Sort(s)) && multiset(Sort(s)) == multiset(s)
  {
    if s != [] {
      SortCorrect(s[1..]);
      InsertSorted(s[0], Sort(s[1..]));
      InsertPermutes(s[0], Sort(s[1..]));
      assert s == [s[0]] + s[1..];
    }
  }

  /** The library's qsort with core_cmp_mapping: callers know that the result is a
      permutation in order of start address, and no more. */
  method Qsort(s: seq<MapInfo>) returns (r: seq<MapInfo>)
    ensures Sorted(r) && multiset(r) == multiset(s)
  {
    r := Sort(s);
    SortCorrect(s);
  }

  function Newest(s: seq<MapInfo>): (r: seq<MapInfo>) {
    if s == [] then [] else [s[|s| - 1]] + Newest(s[..|s| - 1])
  }

  /** The segments that hold anything, newest first. */
  function Loaded(segs: seq<MapInfo>): (r: seq<MapInfo>) {
    if segs == [] then []
    else (if segs[|segs| - 1].memsz != 0 then [segs[|segs| - 1]] else []) + Loaded(segs[..|segs| - 1])
  }

  lemma {:induction false} LoadedMembers(segs: seq<MapInfo>, m: MapInfo)
    ensures m in Loaded(segs) <==> m in segs && m.memsz != 0
  {
    if segs != [] {
      LoadedMembers(segs[..|segs| - 1], m);
      assert segs == segs[..|segs| - 1] + [segs[|segs| - 1]];
    }
  }

  lemma LoadedNext(segs: seq<MapInfo>, k: nat)
    requires k < |segs|
    ensures Loaded(segs[..k + 1]) == (if segs[k].memsz != 0 then [segs[k]] else []) + Loaded(segs[..k])
  {
    assert segs[..k + 1][..k] == segs[..k];
  }

  // ----- the image -----

  /** End of a map once its last page is filled up. */
  function PaddedEnd(m: MapInfo, page: nat): nat
    requires page > 0
  {
    m.vaddr + m.memsz + if m.memsz % page > 0 then page - m.memsz % page else 0
  }

  predicate InPadded(m: MapInfo, page: nat, addr: nat)
    requires page > 0
  {
    m.vaddr <= addr < PaddedEnd(m, page)
  }

  /** Page-aligned nonempty maps with disjoint padded ranges, backed by complete files. */
  ghost predicate WellFormed(all: seq<MapInfo>, files: map<int, seq<Byte>>, page: nat)
    requires page > 0
  {
    && (forall m :: m in all ==> m.vaddr % page == 0 && m.memsz > 0)
    && (forall m :: m in all ==> m.fd in files && m.offset + m.memsz <= |files[m.fd]|)
    && (forall a, b :: a in all && b in all ==> a == b || PaddedEnd(a, page) <= b.vaddr || PaddedEnd(b, page) <= a.vaddr)
  }

  ghost predicate Mapped(all: seq<MapInfo>, page: nat, addr: nat)
    requires page > 0
  {
    exists m :: m in all && InPadded(m, page, addr)
  }

  /** The byte a map gives an address of its padded range: a file byte, or zero in
      the tail of the last page. */
  function ByteOf(m: MapInfo, files: map<int, seq<Byte>>, addr: nat): Byte {
    if Contains(m, addr) && m.fd in files && m.offset + (addr - m.vaddr) < |files[m.fd]|
    then files[m.fd][m.offset + (addr - m.vaddr)] else 0
  }

  /** Memory at one address agrees with the image: some map covers it and gives this byte. */
  ghost predicate ImageByte(all: seq<MapInfo>, files: map<int, seq<Byte>>, page: nat, addr: nat, b: Byte)
    requires page > 0
  {
    exists m :: m in all && InPadded(m, page, addr) && b == ByteOf(m, files, addr)
  }

  /** In a well-formed set the image is a function of the address. */
  lemma ImageUnique(all: seq<MapInfo>, files: map<int, seq<Byte>>, page: nat, addr: nat, b: Byte, c: Byte)
    requires page > 0 && WellFormed(all, files, page)
    requires ImageByte(all, files, page, addr, b) && ImageByte(all, files, page, addr, c)
    ensures b == c
  {
    var m :| m in all && InPadded(m, page, addr) && b == ByteOf(m, files, addr);
    var n :| n in all && InPadded(n, page, addr) && c == ByteOf(n, files, addr);
  }

  /** pread: what the file still holds from `off` on, at most `len` bytes. */
  function Pread(files: map<int, seq<Byte>>, fd: int, len: nat, off: nat): (r: seq<Byte>)
    ensures |r| <= len
  {
    if fd !in files || off >= |files[fd]| then []
    else files[fd][off..if off + len <= |files[fd]| then off + len else |files[fd]|]
  }

  function Min(a: int, b: int): int { if a <= b then a else b }

  // ----- the handle -----

  /** The last map of a sorted disjoint array that starts at or below an address is
      the only one that can contain it. */
  lemma OnlyCandidate(maps: seq<MapInfo>, k: nat, addr: nat, m: MapInfo)
    requires Sorted(maps) && Disjoint(maps) && k < |maps| && m in maps && Contains(m, addr)
    requires k == 0 || maps[k].vaddr <= addr
    requires k + 1 < |maps| ==> addr < maps[k + 1].vaddr
    ensures m == maps[k]
  {
    var j :| 0 <= j < |maps| && maps[j] == m;
    assert forall q :: k < q < |maps| ==> addr < maps[q].vaddr;
    assert j < k ==> maps[j].vaddr <= maps[k].vaddr;
    assert m == maps[k] || Apart(m, maps[k]);
  }

  class Core {
    var maps: seq<MapInfo>            // newest first
    var classShareMaps: seq<MapInfo>
    var numMaps: nat
    var mapArray: seq<MapInfo>
    const files: map<int, seq<Byte>>

    constructor (files: map<int, seq<Byte>>)
      ensures maps == [] && classShareMaps == [] && numMaps == 0 && mapArray == [] && this.files == files
    {
      this.files := files;
      maps, classShareMaps, numMaps, mapArray := [], [], 0, [];
    }

    /** The array was sorted after the last map was added. */
    ghost predicate InStep()
      reads this
    {
      numMaps == |maps| && Sorted(mapArray) && multiset(mapArray) == multiset(maps)
    }

    method AddMapInfo(fd: int, offset: nat, vaddr: nat, memsz: nat)
      modifies this`maps, this`numMaps
      ensures maps == [MapInfo(fd, offset, vaddr, memsz)] + old(maps) && numMaps == old(numMaps) + 1
    {
      maps := [MapInfo(fd, offset, vaddr, memsz)] + maps;
      numMaps := numMaps + 1;
    }

    method AddClassShareMapInfo(fd: int, offset: nat, vaddr: nat, memsz: nat)
      modifies this`classShareMaps
      ensures classShareMaps == [MapInfo(fd, offset, vaddr, memsz)] + old(classShareMaps)
    {
      classShareMaps := [MapInfo(fd, offset, vaddr, memsz)] + classShareMaps;
    }

    /** Copy the list into a fresh array and sort it. */
    method SortMapArray()
      requires numMaps == |maps|
      modifies this`mapArray
      ensures InStep()
    {
      var arr: seq<MapInfo>, rest := [], maps;
      while rest != []
        invariant arr + rest == maps
        decreases |rest|
      {
        arr, rest := arr + [rest[0]], rest[1..];
      }
      assert arr == maps;
      mapArray := Qsort(arr);
    }

    /** The loadable segments of a file join the list, empty ones left out. */
    method ReadSegments(segs: seq<MapInfo>)
      requires numMaps == |maps|
      modifies this`maps, this`numMaps
      ensures numMaps == |maps| && maps == Loaded(segs) + old(maps)
    {
      for k := 0 to |segs|
        invariant numMaps == |maps| && maps == Loaded(segs[..k]) + old(maps)
      {
        LoadedNext(segs, k);
        if segs[k].memsz != 0 {
          AddMapInfo(segs[k].fd, segs[k].offset, segs[k].vaddr, segs[k].memsz);
        }
      }
      assert segs[..|segs|] == segs;
    }

    /** Opening a core file: its segments, a sort, the libraries' segments, a second
        sort, and the class-sharing maps. The array ends up in step with the list. */
    method Grab(core: seq<MapInfo>, libs: seq<MapInfo>, shared: seq<MapInfo>)
      requires maps == [] && classShareMaps == [] && numMaps == 0
      modifies this
      ensures InStep() && maps == Loaded(libs) + Loaded(core)
      ensures forall m :: m in maps <==> m.memsz != 0 && (m in libs || m in core)
      ensures classShareMaps == Newest(shared)
    {
      ReadSegments(core);
      assert Loaded(core) + [] == Loaded(core);
      SortMapArray();
      ReadSegments(libs);
      SortMapArray();
      ReadShared(shared);
      assert Newest(shared) + [] == Newest(shared);
      forall m ensures m in maps <==> m.memsz != 0 && (m in libs || m in core) {
        LoadedMembers(libs, m);
        LoadedMembers(core, m);
      }
    }

    method ReadShared(shared: seq<MapInfo>)
      modifies this`classShareMaps
      ensures classShareMaps == Newest(shared) + old(classShareMaps)
    {
      for k := 0 to |shared|
        invariant classShareMaps == Newest(shared[..k]) + old(classShareMaps)
      {
        assert shared[..k + 1][..k] == shared[..k];
        AddClassShareMapInfo(shared[k].fd, shared[k].offset, shared[k].vaddr, shared[k].memsz);
      }
      assert shared[..|shared|] == shared;
    }

    /** Binary search, then the class-sharing list. */
    method CoreLookup(addr: nat) returns (r: Option<MapInfo>)
      requires InStep() && numMaps > 0 && Disjoint(maps)
      ensures r == Lookup(maps, classShareMaps, addr)
    {
      assert |mapArray| == |multiset(mapArray)| == |multiset(maps)| == numMaps;
      var lo, hi := 0, numMaps - 1;
      while hi - lo > 1
        invariant 0 <= lo <= hi < numMaps && (hi == lo ==> numMaps == 1)
        invariant lo == 0 || mapArray[lo].vaddr <= addr
        invariant hi == numMaps - 1 || addr < mapArray[hi].vaddr
      {
        var mid := (lo + hi) / 2;
        if addr >= mapArray[mid].vaddr { lo := mid; } else { hi := mid; }
      }
      var k := if addr < mapArray[hi].vaddr then lo else hi;
      var mp := mapArray[k];
      SearchFound(mapArray, k, addr, maps);
      if addr >= mp.vaddr && addr < mp.vaddr + mp.memsz {
        return Some(mp);
      }
      var shared := classShareMaps;
      while shared != []
        invariant Find(shared, addr) == Find(classShareMaps, addr)
        decreases |shared|
      {
        if Contains(shared[0], addr) { return Some(shared[0]); }
        shared := shared[1..];
      }
      return None;
    }

    /** One chunk: the bytes pread returns and, when the map ends in a fractional
        page, zeros to the end of that page. */
    method ReadChunk(m: MapInfo, a: nat, buf: array<Byte>, b: nat, resid: nat, page: nat) returns (n: nat)
      requires page > 0 && Contains(m, a) && 0 < resid && b + resid <= buf.Length
      modifies buf
      ensures n == |Chunk(m, files, page, a, resid)| <= resid
      ensures Written(old(buf[..]), buf[..], b, Chunk(m, files, page, a, resid))
    {
      var bytes := Pread(files, m.fd, Min(resid, m.memsz - (a - m.vaddr)), m.offset + (a - m.vaddr));
      n := |bytes|;
      if bytes == [] {
        return;
      }
      WriteAt(buf, b, bytes);
      ghost var mid := buf[..];
      var z := FillTail(m, buf, b + n, resid - n, page);
      WrittenTwice(old(buf[..]), mid, buf[..], b, bytes, Tail(m, page, resid - n));
      n := n + z;
    }

    method FillTail(m: MapInfo, buf: array<Byte>, at: nat, left: nat, page: nat) returns (n: nat)
      requires page > 0 && at + left <= buf.Length
      modifies buf
      ensures n == |Tail(m, page, left)| && Written(old(buf[..]), buf[..], at, Tail(m, page, left))
    {
      n := 0;
      var rem := m.memsz % page;
      if rem > 0 {
        n := Min(left, page - rem);
        WriteAt(buf, at, Zeros(n));
      }
    }

    /** A chunk appended to the `done` bytes in front of it, which began at addr;
        `size` ends the request. */
    method AppendChunk(m: MapInfo, ghost addr: nat, a: nat, buf: array<Byte>, b: nat, size: nat, page: nat, ghost done: seq<Byte>)
      returns (n: nat, ghost done': seq<Byte>)
      requires page > 0 && m in maps + classShareMaps && Contains(m, a)
      requires b < size <= buf.Length && done == buf[..b] && a == addr + b
      modifies buf
      ensures n <= size - b && done <= done' == buf[..b + n] && buf[size..] == old(buf[size..])
      ensures Advanced(maps + classShareMaps, files, page, addr, size, done, done')
    {
      ChunkSound(maps + classShareMaps, files, page, addr, size, done, m, a, size - b);
      ghost var was, c := buf[..], Chunk(m, files, page, a, size - b);
      n := ReadChunk(m, a, buf, b, size - b, page);
      WrittenSlices(was, buf[..], b, c, size);
      done' := done + c;
    }

    /** core_read_data.  With a well-formed map set the read succeeds exactly when it
        is empty, or starts in the body of a map and stays in padded ranges, and then
        every byte is the image's. */
    method ReadData(addr: nat, buf: array<Byte>, size: nat, page: nat) returns (ok: bool)
      requires InStep() && numMaps > 0 && Disjoint(maps) && page > 0 && size <= buf.Length
      modifies buf
      ensures buf[size..] == old(buf[size..])
      ensures WellFormed(maps + classShareMaps, files, page) ==>
        (ok <==> size == 0 || Readable(maps + classShareMaps, page, addr, size))
      ensures WellFormed(maps + classShareMaps, files, page) && ok ==>
        Agrees(maps + classShareMaps, files, page, addr, buf[..size])
    {
      ghost var all, done := maps + classShareMaps, [];
      var resid, a, b := size, addr, 0;
      while resid != 0
        invariant 0 <= resid <= size && b == size - resid && a == addr + b
        invariant done == buf[..b] && buf[size..] == old(buf[size..])
        invariant WellFormed(all, files, page) ==> Progress(all, files, page, addr, size, done)
        decreases resid
      {
        var n;
        n, done := Turn(addr, buf, a, b, size, page, done);
        if n == 0 {
          assert WellFormed(all, files, page) ==> !InBody(all, addr + |done|);
          break;
        }
        resid, a, b := resid - n, a + n, b + n;
      }
      ok := resid == 0;
      if WellFormed(all, files, page) {
        ReadOutcome(all, files, page, addr, size, done);
      }
    }

    /** One turn of the reader at address a, with `done` in front of it: looks up the
        map and reads a chunk; nothing read means that no map contains a. */
    method Turn(ghost addr: nat, buf: array<Byte>, a: nat, b: nat, size: nat, page: nat, ghost done: seq<Byte>)
      returns (n: nat, ghost done': seq<Byte>)
      requires InStep() && numMaps > 0 && Disjoint(maps) && page > 0
      requires b < size <= buf.Length && done == buf[..b] && a == addr + b
      modifies buf
      ensures n <= size - b && done' == buf[..b + n] && buf[size..] == old(buf[size..])
      ensures n == 0 ==> done' == done
      ensures Advanced(maps + classShareMaps, files, page, addr, size, done, done')
    {
      n, done' := 0, done;
      var mp := CoreLookup(a);
      if mp.None? {
        StopSound(maps, classShareMaps, files, page, addr, size, done);
        return;
      }
      LookupMember(maps, classShareMaps, a);
      n, done' := AppendChunk(mp.value, addr, a, buf, b, size, page, done);
    }
  }

  /** `now` is `was` with `bytes` at `at`. */
  ghost predicate Written(was: seq<Byte>, now: seq<Byte>, at: nat, bytes: seq<Byte>) {
    && |now| == |was| && at + |bytes| <= |was|
    && forall i :: 0 <= i < |was| ==> now[i] == if at <= i < at + |bytes| then bytes[i - at] else was[i]
  }

  lemma WrittenTwice(was: seq<Byte>, mid: seq<Byte>, now: seq<Byte>, at: nat, x: seq<Byte>, y: seq<Byte>)
    requires Written(was, mid, at, x) && Written(mid, now, at + |x|, y)
    ensures Written(was, now, at, x + y)
  {
  }

  lemma WrittenSlices(was: seq<Byte>, now: seq<Byte>, at: nat, c: seq<Byte>, size: nat)
    requires Written(was, now, at, c) && at + |c| <= size <= |was|
    ensures now[..at + |c|] == was[..at] + c && now[size..] == was[size..]
  {
  }

  method WriteAt(buf: array<Byte>, at: nat, bytes: seq<Byte>)
    requires at + |bytes| <= buf.Length
    modifies buf
    ensures Written(old(buf[..]), buf[..], at, bytes)
  {
    for k := 0 to |bytes|
      invariant forall i :: 0 <= i < buf.Length ==> buf[i] == if at <= i < at + k then bytes[i - at] else old(buf[i])
    {
      buf[at + k] := bytes[k];
    }
  }

  function Zeros(n: nat): (z: seq<Byte>)
    ensures |z| == n && forall i :: 0 <= i < n ==> z[i] == 0
  {
    seq(n, _ => 0)
  }

  function Chunk(m: MapInfo, files: map<int, seq<Byte>>, page: nat, a: nat, resid: nat): seq<Byte>
    requires page > 0 && Contains(m, a)
  {
    var bytes := Pread(files, m.fd, Min(resid, m.memsz - (a - m.vaddr)), m.offset + (a - m.vaddr));
    if bytes == [] then [] else bytes + Tail(m, page, resid - |bytes|)
  }

  /** Zeros for the rest of a map's last page, at most `left` of them. */
  function Tail(m: MapInfo, page: nat, left: nat): (z: seq<Byte>)
    requires page > 0
    ensures |z| <= left
  {
    var rem := m.memsz % page;
    if rem > 0 then Zeros(Min(left, page - rem)) else []
  }

  /** Consecutive bytes agree with the image. */
  ghost predicate Agrees(all: seq<MapInfo>, files: map<int, seq<Byte>>, page: nat, addr: nat, bytes: seq<Byte>)
    requires page > 0
  {
    forall i :: 0 <= i < |bytes| ==> ImageByte(all, files, page, addr + i, bytes[i])
  }

  lemma AgreesConcat(all: seq<MapInfo>, files: map<int, seq<Byte>>, page: nat, addr: nat, s: seq<Byte>, t: seq<Byte>)
    requires page > 0 && Agrees(all, files, page, addr, s) && Agrees(all, files, page, addr + |s|, t)
    ensures Agrees(all, files, page, addr, s + t)
  {
    forall i | 0 <= i < |s + t|
      ensures ImageByte(all, files, page, addr + i, (s + t)[i])
    {
      if i >= |s| {
        assert ImageByte(all, files, page, addr + |s| + (i - |s|), t[i - |s|]);
      }
    }
  }

  lemma AgreesMapped(all: seq<MapInfo>, files: map<int, seq<Byte>>, page: nat, addr: nat, s: seq<Byte>)
    requires page > 0 && Agrees(all, files, page, addr, s)
    ensures forall x :: addr <= x < addr + |s| ==> Mapped(all, page, x)
  {
    forall x | addr <= x < addr + |s|
      ensures Mapped(all, page, x)
    {
      assert ImageByte(all, files, page, addr + (x - addr), s[x - addr]);
    }
  }

  /** Reader state between turns: what was read agrees with the image, it began in a
      map body, and it stopped on a page boundary unless it is complete. */
  ghost predicate Progress(all: seq<MapInfo>, files: map<int, seq<Byte>>, page: nat, addr: nat, size: nat, done: seq<Byte>)
    requires page > 0
  {
    && Agrees(all, files, page, addr, done)
    && (done != [] ==> InBody(all, addr) && (|done| == size || OnBoundary(addr + |done|, page)))
  }

  lemma LookupMember(maps: seq<MapInfo>, shared: seq<MapInfo>, addr: nat)
    ensures var r := Lookup(maps, shared, addr);
      if r.Some? then r.value in maps + shared && Contains(r.value, addr) else !InBody(maps + shared, addr)
  {
  }

  /** pread is complete: every byte is the map's. */
  lemma FullRead(all: seq<MapInfo>, files: map<int, seq<Byte>>, page: nat, m: MapInfo, a: nat, len: nat)
    requires page > 0 && WellFormed(all, files, page) && m in all && Contains(m, a) && a + len <= m.vaddr + m.memsz
    ensures var bytes := Pread(files, m.fd, len, m.offset + (a - m.vaddr));
      |bytes| == len && Agrees(all, files, page, a, bytes)
  {
    var bytes := Pread(files, m.fd, len, m.offset + (a - m.vaddr));
    forall i | 0 <= i < |bytes|
      ensures ImageByte(all, files, page, a + i, bytes[i])
    {
      assert InPadded(m, page, a + i) && bytes[i] == ByteOf(m, files, a + i);
    }
  }

  lemma TailZeros(all: seq<MapInfo>, files: map<int, seq<Byte>>, page: nat, m: MapInfo, len: nat)
    requires page > 0 && m in all && m.vaddr + m.memsz + len <= PaddedEnd(m, page)
    ensures Agrees(all, files, page, m.vaddr + m.memsz, Zeros(len))
  {
    forall i | 0 <= i < len
      ensures ImageByte(all, files, page, m.vaddr + m.memsz + i, Zeros(len)[i])
    {
      assert InPadded(m, page, m.vaddr + m.memsz + i) && ByteOf(m, files, m.vaddr + m.memsz + i) == 0;
    }
  }

  predicate OnBoundary(a: int, page: int)
    requires page > 0
  {
    a % page == 0
  }

  /** A padded range ends on a page boundary. */
  lemma PaddedAligned(m: MapInfo, page: nat)
    requires page > 0 && m.vaddr % page == 0
    ensures OnBoundary(PaddedEnd(m, page), page)
  {
    var q, r := m.memsz / page, m.memsz % page;
    var v := m.vaddr / page;
    assert m.memsz == page * q + r && m.vaddr == page * v;
    var k := v + q + if r > 0 then 1 else 0;
    assert page * k == page * v + page * q + (if r > 0 then page else 0);
    assert PaddedEnd(m, page) == page * k;
    MultipleMod(page, k);
  }

  lemma MultipleMod(page: int, k: int)
    requires page > 0
    ensures (page * k) % page == 0
  {
    ModUnique(page * k, page, k, 0);
  }

  /** A chunk that makes progress: nonempty, within the residue, in agreement with the
      image, and up to a page boundary or the end of the request. */
  ghost predicate GoodChunk(all: seq<MapInfo>, files: map<int, seq<Byte>>, page: nat, a: nat, resid: nat, c: seq<Byte>)
    requires page > 0
  {
    0 < |c| <= resid && Agrees(all, files, page, a, c) && (|c| == resid || OnBoundary(a + |c|, page))
  }

  lemma ChunkAgrees(all: seq<MapInfo>, files: map<int, seq<Byte>>, page: nat, a: nat, resid: nat, m: MapInfo)
    requires page > 0 && WellFormed(all, files, page) && m in all && Contains(m, a) && resid > 0
    ensures GoodChunk(all, files, page, a, resid, Chunk(m, files, page, a, resid))
  {
    var len := Min(resid, m.memsz - (a - m.vaddr));
    FullRead(all, files, page, m, a, len);
    var bytes, tail := Pread(files, m.fd, len, m.offset + (a - m.vaddr)), Tail(m, page, resid - len);
    if resid != len {
      TailAgrees(all, files, page, m, resid - len);
    }
    JoinGood(all, files, page, a, resid, bytes, tail);
  }

  lemma JoinGood(all: seq<MapInfo>, files: map<int, seq<Byte>>, page: nat, a: nat, resid: nat, x: seq<Byte>, y: seq<Byte>)
    requires page > 0 && 0 < |x| && |x| + |y| <= resid
    requires Agrees(all, files, page, a, x) && Agrees(all, files, page, a + |x|, y)
    requires |x| + |y| == resid || OnBoundary(a + |x| + |y|, page)
    ensures GoodChunk(all, files, page, a, resid, x + y)
  {
    AgreesConcat(all, files, page, a, x, y);
    assert a + |x + y| == a + |x| + |y|;
  }

  lemma TailAgrees(all: seq<MapInfo>, files: map<int, seq<Byte>>, page: nat, m: MapInfo, left: nat)
    requires page > 0 && m in all && m.vaddr % page == 0
    ensures var end, tail := m.vaddr + m.memsz, Tail(m, page, left);
      Agrees(all, files, page, end, tail) && (|tail| == left || OnBoundary(end + |tail|, page))
  {
    TailZeros(all, files, page, m, |Tail(m, page, left)|);
    PaddedAligned(m, page);
    assert Tail(m, page, left) == Zeros(|Tail(m, page, left)|);
  }

  lemma ChunkProgress(all: seq<MapInfo>, files: map<int, seq<Byte>>, page: nat, addr: nat, size: nat, done: seq<Byte>, c: seq<Byte>)
    requires page > 0 && |done| < size && Progress(all, files, page, addr, size, done) && InBody(all, addr + |done|)
    requires GoodChunk(all, files, page, addr + |done|, size - |done|, c)
    ensures Progress(all, files, page, addr, size, done + c) && |done + c| > |done|
  {
    Appended(all, files, page, addr, size, done, c);
  }

  lemma Appended(all: seq<MapInfo>, files: map<int, seq<Byte>>, page: nat, addr: nat, size: nat, done: seq<Byte>, c: seq<Byte>)
    requires page > 0 && Progress(all, files, page, addr, size, done) && InBody(all, addr + |done|)
    requires Agrees(all, files, page, addr + |done|, c)
    requires |done| + |c| == size || OnBoundary(addr + |done| + |c|, page)
    ensures Progress(all, files, page, addr, size, done + c)
  {
    AgreesConcat(all, files, page, addr, done, c);
    assert addr + |done + c| == addr + |done| + |c|;
  }

  /** The maps are well formed and the reader has made good progress. */
  ghost predicate Sound(all: seq<MapInfo>, files: map<int, seq<Byte>>, page: nat, addr: nat, size: nat, done: seq<Byte>)
    requires page > 0
  {
    WellFormed(all, files, page) && Progress(all, files, page, addr, size, done)
  }

  /** What one turn keeps. */
  ghost predicate Advanced(all: seq<MapInfo>, files: map<int, seq<Byte>>, page: nat, addr: nat, size: nat,
                           done: seq<Byte>, done': seq<Byte>)
    requires page > 0
  {
    Sound(all, files, page, addr, size, done) ==>
      Progress(all, files, page, addr, size, done') && (|done'| == |done| ==> !InBody(all, addr + |done|))
  }

  lemma ChunkSound(all: seq<MapInfo>, files: map<int, seq<Byte>>, page: nat, addr: nat, size: nat, done: seq<Byte>,
                   m: MapInfo, a: nat, resid: nat)
    requires page > 0 && |done| < size && a == addr + |done| && resid == size - |done| && m in all && Contains(m, a)
    ensures Advanced(all, files, page, addr, size, done, done + Chunk(m, files, page, a, resid))
  {
    if Sound(all, files, page, addr, size, done) {
      ChunkAgrees(all, files, page, a, resid, m);
      ChunkProgress(all, files, page, addr, size, done, Chunk(m, files, page, a, resid));
    }
  }

  lemma StopSound(maps: seq<MapInfo>, shared: seq<MapInfo>, files: map<int, seq<Byte>>, page: nat, addr: nat, size: nat, done: seq<Byte>)
    requires page > 0 && Lookup(maps, shared, addr + |done|).None?
    ensures Advanced(maps + shared, files, page, addr, size, done, done)
  {
    LookupMember(maps, shared, addr + |done|);
  }

  /** A read that stops short stops at an address no padded range covers, or was
      outside every body to begin with. */
  lemma StopsUnreadable(all: seq<MapInfo>, files: map<int, seq<Byte>>, page: nat, addr: nat, size: nat, done: seq<Byte>)
    requires page > 0 && WellFormed(all, files, page) && |done| < size && Progress(all, files, page, addr, size, done)
    requires !InBody(all, addr + |done|)
    ensures !Readable(all, page, addr, size)
  {
    var a := addr + |done|;
    if done != [] {
      forall m | m in all
        ensures !InPadded(m, page, a)
      {
        BoundaryInBody(m, page, a);
      }
      assert !Mapped(all, page, a);
    } else {
      assert a == addr;
    }
  }

  /** The verdict: complete reads are readable and agree, others were not readable. */
  lemma ReadOutcome(all: seq<MapInfo>, files: map<int, seq<Byte>>, page: nat, addr: nat, size: nat, done: seq<Byte>)
    requires page > 0 && WellFormed(all, files, page) && |done| <= size && Progress(all, files, page, addr, size, done)
    requires |done| < size ==> !InBody(all, addr + |done|)
    ensures |done| == size <==> size == 0 || Readable(all, page, addr, size)
  {
    if |done| < size {
      StopsUnreadable(all, files, page, addr, size, done);
    } else {
      AgreesMapped(all, files, page, addr, done);
    }
  }

  /** A page boundary inside a padded range lies in the body. */
  lemma BoundaryInBody(m: MapInfo, page: nat, a: nat)
    requires page > 0 && m.vaddr % page == 0 && OnBoundary(a, page) && m.memsz > 0
    ensures InPadded(m, page, a) ==> Contains(m, a)
  {
    if InPadded(m, page, a) && a >= m.vaddr + m.memsz {
      PaddedAligned(m, page);
      var e := PaddedEnd(m, page);
      assert a == page * (a / page) && e == page * (e / page);
      assert page * (e / page - a / page) == e - a;
      StrictMultiple(page, e / page - a / page);
    }
  }

  lemma StrictMultiple(page: int, k: int)
    requires page > 0
    ensures !(0 < page * k < page)
  {
    if k >= 1 {
      assert page * k >= page;
    } else {
      assert page * k <= 0;
    }
  }

  ghost predicate InBody(all: seq<MapInfo>, addr: nat) {
    exists m :: m in all && Contains(m, addr)
  }

  /** The read starts in a map body and never leaves the padded ranges. */
  ghost predicate Readable(all: seq<MapInfo>, page: nat, addr: nat, size: nat)
    requires page > 0
  {
    InBody(all, addr) && forall x :: addr <= x < addr + size ==> Mapped(all, page, x)
  }

  lemma SearchFound(arr: seq<MapInfo>, k: nat, addr: nat, maps: seq<MapInfo>)
    requires Sorted(arr) && multiset(arr) == multiset(maps) && Disjoint(maps) && k < |arr|
    requires k == 0 || arr[k].vaddr <= addr
    requires k + 1 < |arr| ==> addr < arr[k + 1].vaddr
    ensures Find(maps, addr) == if Contains(arr[k], addr) then Some(arr[k]) else None
  {
    SameMembers(arr, maps);
    assert arr[k] in arr;
    var f := Find(maps, addr);
    if f.Some? {
      OnlyCandidate(arr, k, addr, f.value);
    }
  }

  lemma SameMembers(a: seq<MapInfo>, b: seq<MapInfo>)
    requires multiset(a) == multiset(b)
    ensures forall m :: m in a <==> m in b
  {
    forall m
      ensures m in a <==> m in b
    {
      assert m in a <==> m in multiset(a);
      assert m in b <==> m in multiset(b);
    }
  }
}
