/**
 Descriptors that share one stream. Every open descriptor of a volume reads through the same
 `private->dev`, and each table lookup moves it; still, any interleaving of reads, seeks and
 directory lookups gives each descriptor what it would get alone.
 */
module Fat16Sharing {
  import opened Status
  import opened DiskStreams
  import opened FatVolume
  import opened Fat16
  import opened Fat16Directory
  import opened Rings

  datatype FileOp =
    | ReadOp(file: nat, size: nat, nmemb: nat)
    | SeekOp(file: nat, offset: int, whence: int)
    | LookupOp(file: nat, name: seq<byte>, extension: seq<byte>)

  /** What an operation answers. */
  datatype Answer = Bytes(bytes: seq<byte>) | SeekDone(ret: int) | Found(item: Option<Item>)

  /** The cursor of file number `file` and the answers to its operations when only these are
      performed. */
  ghost function Alone(fs: FatPrivate, item: Item, chain: seq<nat>, end: nat, st: Cursor, ops: seq<FileOp>, file: nat)
    : (Cursor, seq<Answer>)
    requires IsEntry(fs, item, chain, end)
  {
    if ops == [] then (st, [])
    else
      var (mid, answers) := Alone(fs, item, chain, end, st, ops[..|ops| - 1], file);
      var op := ops[|ops| - 1];
      if op.file != file then (mid, answers)
      else (AfterOp(fs, item, chain, mid, op), answers + [AnswerTo(fs, item, chain, end, mid, op)])
  }

  /** A file, or a directory that can be looked through. */
  ghost predicate IsEntry(fs: FatPrivate, item: Item, chain: seq<nat>, end: nat) {
    IsFile(fs, item, chain, end) && (IsDirectory(item) ==> InDirectory(fs, item, chain, end))
  }

  ghost function AfterOp(fs: FatPrivate, item: Item, chain: seq<nat>, st: Cursor, op: FileOp): Cursor
    requires fs.bytesPerCluster > 0
  {
    match op
    case ReadOp(_, size, nmemb) => AfterRead(fs, item, chain, st, Requested(size, nmemb))
    case SeekOp(_, offset, whence) => AfterSeek(item, st, offset, whence)
    case LookupOp(_, _, _) => if IsDirectory(item) then Cursor(0, 0, item.firstSector, false, st.error) else st
  }

  ghost function AnswerTo(fs: FatPrivate, item: Item, chain: seq<nat>, end: nat, st: Cursor, op: FileOp): Answer
    requires IsEntry(fs, item, chain, end)
  {
    match op
    case ReadOp(_, size, nmemb) => Bytes(DeliveredBytes(fs, item, chain, end, st.pos, Requested(size, nmemb)))
    case SeekOp(_, _, whence) => SeekDone(if whence == SEEK_SET || whence == SEEK_CUR || whence == SEEK_END then 0 else 1)
    case LookupOp(_, name, extension) =>
      Found(if IsDirectory(item) then Lookup(fs, item, Listed(fs, item, chain, end), name, extension) else None)
  }

  /** What a descriptor needs for its next operation: nothing the shared stream can spoil. */
  ghost predicate Ready(d: Descriptor, fs: FatPrivate, chain: seq<nat>, end: nat)
    reads d
  {
    && d.fs == fs && IsEntry(fs, d.item, chain, end)
    && EofIsHonest(fs, d.item, chain, d.State()) && d.pos < WORD32
  }

  /** Operations keep it. */
  lemma StaysReady(fs: FatPrivate, item: Item, chain: seq<nat>, end: nat, st: Cursor, op: FileOp)
    requires IsEntry(fs, item, chain, end) && EofIsHonest(fs, item, chain, st) && st.pos < WORD32
    ensures EofIsHonest(fs, item, chain, AfterOp(fs, item, chain, st, op)) && AfterOp(fs, item, chain, st, op).pos < WORD32
  {
    hide FatPrivate.Content, FatPrivate.DataClusters, InDirectory;
    match op
    case ReadOp(_, size, nmemb) =>
      ReadIsCoherent(fs, item, chain, end, st, Requested(size, nmemb));
      ContentLength(fs, chain);
      if chain != [] {
        ContentFits(fs, chain[0], chain, end);
      }
    case SeekOp(_, _, _) =>
    case LookupOp(_, _, _) =>
  }

  /** A read into a buffer of its own. */
  method ReadAll(d: Descriptor, size: nat, nmemb: nat, ghost fs: FatPrivate, ghost chain: seq<nat>, ghost end: nat)
    returns (bytes: seq<byte>)
    requires Ready(d, fs, chain, end)
    modifies d, d.fs.dev`ppos
    ensures d.State() == AfterRead(fs, d.item, chain, old(d.State()), Requested(size, nmemb))
    ensures bytes == DeliveredBytes(fs, d.item, chain, end, old(d.pos), Requested(size, nmemb))
  {
    hide AfterRead, DeliveredBytes, EofIsHonest, Requested, HasChain, Overwrite, InDirectory;
    var n := Requested(size, nmemb);
    var room := Delivered(d.item.entry.size, d.pos, n);
    var out := new byte[room];
    ghost var was, given := out[..], DeliveredBytes(fs, d.item, chain, end, d.pos, n);
    var k := d.Read(size, nmemb, out, 0, chain, end);
    OverwritePrefix(was, given);
    bytes := out[..k];
  }

  lemma OverwritePrefix<A>(s: seq<A>, src: seq<A>)
    requires |src| <= |s|
    ensures Overwrite(s, 0, src)[..|src|] == src
  {}

  /** One operation on one descriptor. */
  method Perform(d: Descriptor, op: FileOp, ghost fs: FatPrivate, ghost chain: seq<nat>, ghost end: nat)
    returns (answer: Answer)
    requires Ready(d, fs, chain, end)
    modifies d, d.fs.dev`ppos
    ensures Ready(d, fs, chain, end)
    ensures d.State() == AfterOp(fs, d.item, chain, old(d.State()), op)
    ensures answer == AnswerTo(fs, d.item, chain, end, old(d.State()), op)
  {
    hide AfterRead, DeliveredBytes, EofIsHonest, Requested, HasChain, InDirectory, Listed, IsLookup, Lookup;
    StaysReady(fs, d.item, chain, end, d.State(), op);
    match op
    case ReadOp(_, size, nmemb) =>
      var bytes := ReadAll(d, size, nmemb, fs, chain, end);
      answer := Bytes(bytes);
    case SeekOp(_, offset, whence) =>
      var ret := d.Seek(offset, whence);
      answer := SeekDone(ret);
    case LookupOp(_, name, extension) =>
      var r := FindEntry(d, name, extension, chain, end);
      if IsDirectory(d.item) {
        LookupIsUnique(fs, d.item, Listed(fs, d.item, chain, end), name, extension, r);
      }
      answer := Found(r);
  }

  ghost predicate IsAsAlone(d: Descriptor, answers: seq<Answer>, fs: FatPrivate, chain: seq<nat>, end: nat,
                            st: Cursor, ops: seq<FileOp>, file: nat)
    reads d
  {
    IsEntry(fs, d.item, chain, end) && (d.State(), answers) == Alone(fs, d.item, chain, end, st, ops, file)
  }

  /** Any interleaving: afterwards each descriptor stands where it would stand alone and has
      been given the answers it would have been given alone. */
  method Interleave(files: seq<Descriptor>, ops: seq<FileOp>, ghost fs: FatPrivate,
                    ghost chains: seq<seq<nat>>, ghost ends: seq<nat>)
    returns (answers: seq<seq<Answer>>)
    requires Distinct(files) && |chains| == |files| && |ends| == |files|
    requires forall f | 0 <= f < |files| :: Ready(files[f], fs, chains[f], ends[f])
    requires forall i | 0 <= i < |ops| :: ops[i].file < |files|
    modifies files, fs.dev`ppos
    ensures |answers| == |files|
    ensures forall f | 0 <= f < |files| ::
              IsAsAlone(files[f], answers[f], fs, chains[f], ends[f], old(files[f].State()), ops, f)
  {
    hide IsEntry, EofIsHonest, AfterOp, AnswerTo;
    answers := seq(|files|, _ => []);
    var i := 0;
    assert ops[..0] == [];
    while i < |ops|
      invariant 0 <= i <= |ops| && |answers| == |files|
      invariant forall f | 0 <= f < |files| :: Ready(files[f], fs, chains[f], ends[f])
      invariant forall f | 0 <= f < |files| ::
                  IsAsAlone(files[f], answers[f], fs, chains[f], ends[f], old(files[f].State()), ops[..i], f)
    {
      var answer := Perform(files[ops[i].file], ops[i], fs, chains[ops[i].file], ends[ops[i].file]);
      answers := answers[ops[i].file := answers[ops[i].file] + [answer]];
      assert ops[..i + 1][..i] == ops[..i] && ops[..i + 1][i] == ops[i];
      i := i + 1;
    }
    assert ops[..|ops|] == ops;
  }
}
