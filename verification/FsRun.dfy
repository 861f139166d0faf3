/** Whole runs of the inode layer: any series of writes, reads and truncations behaves like
    the same series on plain byte sequences. */
module FsRun {
  import opened Blocks
  import opened FsModel
  import opened FsInv
  import opened Bitmap
  import opened FsContent
  import opened FsWrite
  import opened FsTrunc
  import Fs

  datatype Op =
    | Write(i: nat, off: nat, data: seq<Byte>)
    | Read(i: nat, off: nat, n: nat)
    | Truncate(i: nat)

  datatype Out = Count(n: nat) | Bytes(d: seq<Byte>) | Failed | Emptied

  predicate OpOk(op: Op, n: nat) {
    && op.i < n
    && match op
       case Write(_, off, data) => off < Fs.U32 && |data| < Fs.U32
       case Read(_, off, k) => off < Fs.U32 && k < Fs.U32
       case Truncate(_) => true
  }

  predicate AllOk(ops: seq<Op>, n: nat) { forall k :: 0 <= k < |ops| ==> OpOk(ops[k], n) }

  // --------------------------------------------------- files as byte sequences

  function Clip(c: seq<Byte>, off: nat, n: nat): seq<Byte>
    requires off <= |c|
  {
    c[off..off + Min(n, |c| - off)]
  }

  function PlainStep(files: seq<seq<Byte>>, op: Op): seq<seq<Byte>>
    requires op.i < |files|
  {
    match op
    case Write(i, off, data) =>
      if Fits(|files[i]|, off, |data|) then files[i := Overwrite(files[i], off, data)] else files
    case Read(_, _, _) => files
    case Truncate(i) => files[i := []]
  }

  function PlainOut(files: seq<seq<Byte>>, op: Op): Out
    requires op.i < |files|
  {
    match op
    case Write(i, off, data) => if Fits(|files[i]|, off, |data|) then Count(|data|) else Failed
    case Read(i, off, n) => if off <= |files[i]| && off + n < Fs.U32 then Bytes(Clip(files[i], off, n)) else Failed
    case Truncate(_) => Out.Emptied
  }

  function PlainRun(files: seq<seq<Byte>>, ops: seq<Op>): seq<seq<Byte>>
    requires AllOk(ops, |files|)
    ensures |PlainRun(files, ops)| == |files|
  {
    if ops == [] then files
    else
      PlainStep(PlainRun(files, ops[..|ops| - 1]), ops[|ops| - 1])
  }

  function PlainOuts(files: seq<seq<Byte>>, ops: seq<Op>): seq<Out>
    requires AllOk(ops, |files|)
  {
    if ops == [] then []
    else
      PlainOuts(files, ops[..|ops| - 1]) + [PlainOut(PlainRun(files, ops[..|ops| - 1]), ops[|ops| - 1])]
  }

  // ------------------------------------------------------------------ on disk

  ghost function Files(fs: Fs.Fs): (c: seq<seq<Byte>>)
    reads fs
    requires |fs.inodes| == |fs.v.maps|
    ensures |c| == |fs.inodes|
  {
    seq(|fs.inodes|, i requires 0 <= i < |fs.inodes| && |fs.inodes| == |fs.v.maps| reads fs =>
      File(fs.disk, fs.inodes, fs.v, i))
  }

  ghost predicate Ready(fs: Fs.Fs)
    reads fs
  {
    Settled(fs.sb, fs.disk, fs.inodes, fs.v) && |fs.inodes| == |fs.v.maps|
  }

  method Perform(fs: Fs.Fs, op: Op) returns (out: Out, panicked: bool)
    requires Ready(fs) && OpOk(op, |fs.inodes|)
    modifies fs
    ensures panicked ==> Free !in fs.v.owner
    ensures !panicked ==> Ready(fs) && |fs.inodes| == |old(fs.inodes)|
    ensures !panicked ==> Files(fs) == PlainStep(old(Files(fs)), op) && out == PlainOut(old(Files(fs)), op)
  {
    hide Settled, Overwrite;
    ghost var files := Files(fs);
    SettledBacked(fs.sb, fs.disk, fs.inodes, fs.v, op.i);
    panicked := false;
    match op
    case Write(i, off, data) =>
      var r := fs.Writei(i, off, data);
      panicked := r.Panicked?;
      out := if r.Done? then Count(r.n) else Failed;
      assert !panicked ==> Files(fs) == PlainStep(files, op);
    case Read(i, off, n) =>
      var r, d := fs.Readi(i, off, n);
      out := if r.Done? then Bytes(d) else Failed;
      assert Files(fs) == files;
    case Truncate(i) =>
      fs.Itrunc(i);
      out := Out.Emptied;
      assert Files(fs) == PlainStep(files, op);
  }

  /** Whatever is done to the files, they read as plain byte sequences would, until the disk
      is full. */
  method Session(fs: Fs.Fs, ops: seq<Op>) returns (outs: seq<Out>, panicked: bool)
    requires Ready(fs) && AllOk(ops, |fs.inodes|)
    modifies fs
    ensures panicked ==> Free !in fs.v.owner
    ensures !panicked ==> Ready(fs)
    ensures !panicked ==> outs == PlainOuts(old(Files(fs)), ops) && Files(fs) == PlainRun(old(Files(fs)), ops)
  {
    hide Settled, PlainStep, PlainOut, OpOk;
    ghost var files := Files(fs);
    outs, panicked := [], false;
    var k := 0;
    while k < |ops|
      invariant k <= |ops| && Ready(fs) && |fs.inodes| == |fs.v.maps| == |files|
      invariant outs == PlainOuts(files, ops[..k]) && Files(fs) == PlainRun(files, ops[..k])
    {
      assert ops[..k + 1][..k] == ops[..k];
      var out;
      out, panicked := Perform(fs, ops[k]);
      if panicked {
        return;
      }
      outs := outs + [out];
      k := k + 1;
    }
    assert ops[..k] == ops;
  }

  /** A chunk that uses the whole reservation: the file ends just after the start of its
      twelfth block, and the four lowest free blocks have their bits in four bitmap blocks. */
  method TightChunk(fs: Fs.Fs, i: nat, src: seq<Byte>, ghost low: set<nat>) returns (r: Fs.Io)
    requires Ready(fs) && i < |fs.inodes| && fs.inodes[i].size == 11 * BSIZE + 1 && |src| == CHUNK
    requires low <= FreeSet(fs.v) && |low| == 4 && Lowest(fs.v, low)
    requires forall b, c :: b in low && c in low && b != c ==> BBlock(fs.sb.bmapstart, b) != BBlock(fs.sb.bmapstart, c)
    modifies fs
    ensures r == Fs.Done(CHUNK) && |fs.logged| == MAXOPBLOCKS
  {
    hide Settled, Overwrite, Cost, Bits;
    ghost var v0 := fs.v;
    Smaller(low, FreeSet(v0));
    assert Allocates(11 * BSIZE + 1, 11 * BSIZE + 1, CHUNK) == 4;
    r := fs.WriteChunk(i, 11 * BSIZE + 1, src);
    FullChunk(fs.sb, v0, New(v0, fs.v), low);
  }
}
