/** What a reader is shown, with and without the cache, and what a mode change reads
    back (`read_bytes`, `read_workfile`, `setattr` of crates/softfig-fuse/src/fs.rs). */
module Reads {
  import opened Paths
  import opened Trees
  import opened Views
  import opened Overlays
  import opened Live
  import opened Staging
  import opened Protocol

  /** The daemon's answers about sealing: which paths are sealed, what stands in for
      them, and what is left of other content once its vault regions are redacted. */
  datatype Reader = Reader(isSealed: Path -> bool, placeholder: Path -> Bytes, redact: (Path, Bytes) -> Bytes)

  type Cache = map<Path, Bytes>

  /** `read_bytes` with no cache and nothing unreadable. */
  function Read(rd: Reader, v: View, s: Slots, p: Path): Bytes {
    if p in s && !s[p].entry.StagedFile? then []
    else if rd.isSealed(p) then rd.placeholder(p)
    else match Resolve(v, s, p)
      case IsFile(d) => rd.redact(p, d.content)
      case _ => []
  }

  /** The read goes to the object store: no overlay entry, seal or cached content answers. */
  predicate Fetches(rd: Reader, v: View, s: Slots, cache: Cache, p: Path) {
    p !in s && !rd.isSealed(p) && p !in cache && BlobAt(v, p).Some?
  }

  /** `read_bytes`; None when the object it needs is in `broken`. */
  function Answer(rd: Reader, v: View, s: Slots, cache: Cache, p: Path, broken: set<Path>): Option<Bytes> {
    if p in s then
      match s[p].entry
      case StagedFile(d) => Some(if rd.isSealed(p) then rd.placeholder(p) else rd.redact(p, d.content))
      case _ => Some([])
    else if rd.isSealed(p) then Some(rd.placeholder(p))
    else if p in cache then Some(cache[p])
    else match BlobAt(v, p)
      case None => Some([])
      case Some(d) => if p in broken then None else Some(rd.redact(p, d.content))
  }

  function CacheAfter(rd: Reader, v: View, s: Slots, cache: Cache, p: Path, broken: set<Path>): Cache {
    if Fetches(rd, v, s, cache, p) && p !in broken then cache[p := rd.redact(p, BlobAt(v, p).value.content)] else cache
  }

  /** Whatever is cached is what reading and redacting the view's file now would give. */
  ghost predicate CacheCurrent(rd: Reader, v: View, cache: Cache) {
    forall p | p in cache ::
      !rd.isSealed(p) && BlobAt(v, p).Some? && cache[p] == rd.redact(p, BlobAt(v, p).value.content)
  }

  /** What a read shows, by what the path resolves to: a file's placeholder or redacted
      bytes; of anything else nothing, but for a seal on what the overlay does not mention. */
  lemma ReadIsShown(rd: Reader, v: View, s: Slots, p: Path)
    ensures Resolve(v, s, p).IsFile? ==> Read(rd, v, s, p) == Shown(rd, p, Resolve(v, s, p).data.content)
    ensures !Resolve(v, s, p).IsFile? ==>
              Read(rd, v, s, p) == if p !in s && rd.isSealed(p) then rd.placeholder(p) else []
  {
  }

  /** With a current cache the answer is the uncached one, and the cache stays current. */
  lemma AnswerIsRead(rd: Reader, v: View, s: Slots, cache: Cache, p: Path, broken: set<Path>)
    requires CacheCurrent(rd, v, cache)
    ensures Answer(rd, v, s, cache, p, broken) ==
            if Fetches(rd, v, s, cache, p) && p in broken then None else Some(Read(rd, v, s, p))
    ensures CacheCurrent(rd, v, CacheAfter(rd, v, s, cache, p, broken))
  {
  }

  // ---- over whole runs ---------------------------------------------------------

  datatype Mounted = Mounted(world: World, cache: Cache)

  datatype Call = Fetch(path: Path, broken: set<Path>) | Do(step: Step)

  /** The steps in which `rotate_tip` runs, recomposition failing or not. */
  predicate Rotates(w: World, step: Step) {
    match step
    case Land(r, _, record) => r in w.pending && (record || !SameTree(w, r, w.pending[r].part))
    case Pull(r, tree, _) => !SameTree(w, r, tree)
    case Swap(_, _) => true
    case _ => false
  }

  /** A read may fill the cache; a rotation drops it; nothing else touches it. */
  ghost predicate MountStep(rd: Reader, m: Mounted, call: Call, m': Mounted, ignored: set<Name>) {
    match call
    case Fetch(p, broken) =>
      m' == m.(cache := CacheAfter(rd, m.world.view, m.world.log.slots, m.cache, p, broken))
    case Do(step) =>
      && Next(m.world, step, m'.world, ignored)
      && m'.cache == if Rotates(m.world, step) then map[] else m.cache
  }

  ghost predicate Current(rd: Reader, m: Mounted) {
    CacheCurrent(rd, m.world.view, m.cache)
  }

  /** Where no rotation runs the view stays, so what is cached stays current. */
  lemma StepKeepsCurrent(rd: Reader, m: Mounted, call: Call, m': Mounted, ignored: set<Name>)
    requires Current(rd, m) && MountStep(rd, m, call, m', ignored)
    ensures Current(rd, m')
  {
    match call
    case Fetch(p, broken) => AnswerIsRead(rd, m.world.view, m.world.log.slots, m.cache, p, broken);
    case Do(step) =>
      if !Rotates(m.world, step) {
        assert m'.world.view == m.world.view;
      }
  }

  ghost predicate CallStep(rd: Reader, states: seq<Mounted>, calls: seq<Call>, i: nat, ignored: set<Name>) {
    i < |calls| && i + 1 < |states| && MountStep(rd, states[i], calls[i], states[i + 1], ignored)
  }

  ghost predicate AreCalls(rd: Reader, states: seq<Mounted>, calls: seq<Call>, ignored: set<Name>) {
    && |states| == |calls| + 1
    && forall i | 0 <= i < |calls| :: CallStep(rd, states, calls, i, ignored)
  }

  lemma {:induction false} CacheStaysCurrent(rd: Reader, states: seq<Mounted>, calls: seq<Call>, ignored: set<Name>, n: nat)
    requires AreCalls(rd, states, calls, ignored) && n < |states| && Current(rd, states[0])
    ensures Current(rd, states[n])
  {
    if n > 0 {
      CacheStaysCurrent(rd, states, calls, ignored, n - 1);
      assert CallStep(rd, states, calls, n - 1, ignored);
      StepKeepsCurrent(rd, states[n - 1], calls[n - 1], states[n], ignored);
    }
  }

  /** Over every run of reads, stagings, snapshots, landings, pulls, swaps and failed
      recompositions, from an empty cache: every read that does not fail returns what
      an uncached read would, and it fails only when it needs an unreadable object. */
  lemma ReadsAreUncached(rd: Reader, states: seq<Mounted>, calls: seq<Call>, ignored: set<Name>, n: nat, p: Path, broken: set<Path>)
    requires AreCalls(rd, states, calls, ignored) && n < |states| && states[0].cache == map[]
    ensures var v, s, cache := states[n].world.view, states[n].world.log.slots, states[n].cache;
            Answer(rd, v, s, cache, p, broken) ==
            if Fetches(rd, v, s, cache, p) && p in broken then None else Some(Read(rd, v, s, p))
  {
    CacheStaysCurrent(rd, states, calls, ignored, n);
    AnswerIsRead(rd, states[n].world.view, states[n].world.log.slots, states[n].cache, p, broken);
  }

  // ---- what a mode change reads back ---------------------------------------------

  /** What `setattr` hands to `stage_mode`: the reader's bytes, nothing on a failed read. */
  function ReadBack(rd: Reader, v: View, s: Slots, cache: Cache, p: Path, broken: set<Path>): Bytes {
    match Answer(rd, v, s, cache, p, broken)
    case Some(bytes) => bytes
    case None => []
  }

  /** `read_workfile`: the plain content; None when the object is in `broken`. */
  function Workfile(v: View, s: Slots, p: Path, broken: set<Path>): Option<Bytes> {
    match Resolve(v, s, p)
    case IsFile(d) => if p !in s && p in broken then None else Some(d.content)
    case _ => Some([])
  }

  /** What the mount handle's `stage_mode` hands over. */
  function WorkfileBack(v: View, s: Slots, p: Path, broken: set<Path>): Bytes {
    match Workfile(v, s, p, broken)
    case Some(bytes) => bytes
    case None => []
  }

  /** A mode change through the kernel gives a file its own bytes back: a sealed file
      must equal its placeholder, another must have nothing to redact, and one whose
      object cannot be read must be empty. */
  predicate KernelGivesBack(rd: Reader, s: Slots, cache: Cache, p: Path, broken: set<Path>, content: Bytes) {
    if rd.isSealed(p) then rd.placeholder(p) == content
    else if p in s || p in cache || p !in broken then rd.redact(p, content) == content
    else content == []
  }

  /** A kernel mode change on a live file keeps its content exactly then. */
  lemma KernelChmodIff(rd: Reader, v: View, a: Log, b: Log, cache: Cache, p: Path, mode: nat, broken: set<Path>, ignored: set<Name>)
    requires CacheCurrent(rd, v, cache) && LiveAt(v, a.slots, ignored, p).Some?
    requires Restaged(a, b, map[p := StagedFile(FileData(ReadBack(rd, v, a.slots, cache, p, broken), mode))])
    ensures LiveAt(v, b.slots, ignored, p) == Some(LiveAt(v, a.slots, ignored, p).value.(mode := MaskMode(mode)))
            <==> KernelGivesBack(rd, a.slots, cache, p, broken, Resolve(v, a.slots, p).data.content)
  {
    ChmodKeepsContentIff(v, a, b, p, ReadBack(rd, v, a.slots, cache, p, broken), mode, ignored);
  }

  /** A mode change through the mount handle gives a file its own bytes back: the
      object can be read, or the file is empty anyway. */
  predicate HandleGivesBack(v: View, s: Slots, p: Path, broken: set<Path>) {
    Resolve(v, s, p).IsFile? && (p in s || p !in broken || Resolve(v, s, p).data.content == [])
  }

  /** It keeps a live file's content exactly then. */
  lemma HandleChmodIff(v: View, a: Log, b: Log, p: Path, mode: nat, broken: set<Path>, ignored: set<Name>)
    requires LiveAt(v, a.slots, ignored, p).Some?
    requires Restaged(a, b, map[p := StagedFile(FileData(WorkfileBack(v, a.slots, p, broken), mode))])
    ensures LiveAt(v, b.slots, ignored, p) == Some(LiveAt(v, a.slots, ignored, p).value.(mode := MaskMode(mode)))
            <==> HandleGivesBack(v, a.slots, p, broken)
  {
    ChmodKeepsContentIff(v, a, b, p, WorkfileBack(v, a.slots, p, broken), mode, ignored);
  }

  // ---- what a write or a new size splices into ------------------------------------

  function ByteAt(bytes: Bytes, i: nat): byte {
    if i < |bytes| then bytes[i] else 0
  }

  /** `resize`: cut, or padded with zero bytes. */
  function Resized(bytes: Bytes, n: nat): (r: Bytes)
    ensures |r| == n
    ensures forall i | 0 <= i < n :: r[i] == ByteAt(bytes, i)
  {
    if n <= |bytes| then bytes[..n] else bytes + seq(n - |bytes|, i => 0)
  }

  /** `data` written at `start`, the buffer padded up to it if need be. */
  function Spliced(bytes: Bytes, start: nat, data: Bytes): (r: Bytes)
    ensures |r| == if start + |data| > |bytes| then start + |data| else |bytes|
    ensures forall i | 0 <= i < |r| :: r[i] == if start <= i < start + |data| then data[i - start] else ByteAt(bytes, i)
  {
    var end := start + |data|;
    var buffer := if end > |bytes| then Resized(bytes, end) else bytes;
    buffer[..start] + data + buffer[end..]
  }

  /** The two agree on what a write of `n` bytes at `start` leaves: the bytes outside,
      and the length where it goes beyond. */
  ghost predicate SameOutside(x: Bytes, y: Bytes, start: nat, n: nat) {
    && (|x| == |y| || (|x| <= start + n && |y| <= start + n))
    && forall i: nat | !(start <= i < start + n) :: ByteAt(x, i) == ByteAt(y, i)
  }

  lemma SplicedSameIff(x: Bytes, y: Bytes, start: nat, data: Bytes)
    ensures Spliced(x, start, data) == Spliced(y, start, data) <==> SameOutside(x, y, start, |data|)
  {
    var r, s := Spliced(x, start, data), Spliced(y, start, data);
    if r == s {
      forall i: nat | !(start <= i < start + |data|)
        ensures ByteAt(x, i) == ByteAt(y, i)
      {
        if i < |r| {
          assert r[i] == s[i];
        }
      }
    }
    if SameOutside(x, y, start, |data|) {
      assert |r| == |s|;
      forall i | 0 <= i < |r|
        ensures r[i] == s[i]
      {
      }
    }
  }

  lemma ResizedSameIff(x: Bytes, y: Bytes, n: nat)
    ensures Resized(x, n) == Resized(y, n) <==> forall i: nat | i < n :: ByteAt(x, i) == ByteAt(y, i)
  {
    if Resized(x, n) == Resized(y, n) {
      forall i: nat | i < n
        ensures ByteAt(x, i) == ByteAt(y, i)
      {
        assert Resized(x, n)[i] == Resized(y, n)[i];
      }
    }
  }

  /** The bytes a reader sees of a file with this content. */
  function Shown(rd: Reader, p: Path, content: Bytes): Bytes {
    if rd.isSealed(p) then rd.placeholder(p) else rd.redact(p, content)
  }

  /** A kernel write on a live file writes its data and nothing else exactly when what
      the reader sees of the file, its placeholder or its redacted bytes, agrees with the
      content outside the written range. */
  lemma KernelWriteIff(rd: Reader, v: View, a: Log, b: Log, cache: Cache, p: Path, start: nat, data: Bytes,
                       broken: set<Path>, ignored: set<Name>)
    requires CacheCurrent(rd, v, cache) && LiveAt(v, a.slots, ignored, p).Some?
    requires Answer(rd, v, a.slots, cache, p, broken).Some?
    requires var back := Answer(rd, v, a.slots, cache, p, broken).value;
             Restaged(a, b, map[p := StagedFile(FileData(Spliced(back, start, data), CurrentMode(v, a.slots, p, FILE_MODE)))])
    ensures var content := Resolve(v, a.slots, p).data.content;
            LiveAt(v, b.slots, ignored, p) == Some(LiveAt(v, a.slots, ignored, p).value.(content := Spliced(content, start, data)))
            <==> SameOutside(Shown(rd, p, content), content, start, |data|)
  {
    var content := Resolve(v, a.slots, p).data.content;
    var back := Answer(rd, v, a.slots, cache, p, broken).value;
    assert back == Shown(rd, p, content);
    FileEntryIsExact(v, a, b, p, FileData(Spliced(back, start, data), CurrentMode(v, a.slots, p, FILE_MODE)), ignored, p);
    SplicedSameIff(back, content, start, data);
  }

  /** A kernel size change on a live file keeps the bytes it should exactly when what is
      read back agrees with the content up to the new size. */
  lemma KernelResizeIff(rd: Reader, v: View, a: Log, b: Log, cache: Cache, p: Path, size: nat, mode: nat,
                        broken: set<Path>, ignored: set<Name>)
    requires LiveAt(v, a.slots, ignored, p).Some?
    requires Restaged(a, b, map[p := StagedFile(FileData(Resized(ReadBack(rd, v, a.slots, cache, p, broken), size), mode))])
    ensures var content := Resolve(v, a.slots, p).data.content;
            LiveAt(v, b.slots, ignored, p) == Some(FileData(Resized(content, size), MaskMode(mode)))
            <==> forall i: nat | i < size :: ByteAt(ReadBack(rd, v, a.slots, cache, p, broken), i) == ByteAt(content, i)
  {
    var back := ReadBack(rd, v, a.slots, cache, p, broken);
    FileEntryIsExact(v, a, b, p, FileData(Resized(back, size), mode), ignored, p);
    ResizedSameIff(back, Resolve(v, a.slots, p).data.content, size);
  }
}
