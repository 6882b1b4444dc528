/** One flat byte file, and what runs of calls on it do and answer. */
module FlatFiles {
  import opened Bytes

  datatype Op =
    | Write(buf: seq<byte>, offset: nat)
    | Read(size: nat, offset: nat)
    | Truncate(size: nat)
    | GetSize

  /** What a call returns: its result, and for a read the bytes. */
  datatype Answer = Answer(res: int, bytes: seq<byte>)

  function FlatFile(op: Op, file: seq<byte>): seq<byte> {
    match op
    case Write(buf, offset) => Pwrite(file, offset, buf)
    case Truncate(size) => Ftruncate(file, size)
    case _ => file
  }

  function FlatAnswer(op: Op, file: seq<byte>): Answer {
    match op
    case Write(buf, offset) => Answer(|buf|, [])
    case Read(size, offset) => var got := Pread(file, offset, size); Answer(|got|, got)
    case Truncate(size) => Answer(0, [])
    case GetSize => Answer(|file|, [])
  }

  function FlatRun(ops: seq<Op>, file: seq<byte>): seq<byte> {
    if ops == [] then file else FlatRun(ops[1..], FlatFile(ops[0], file))
  }

  function FlatAnswers(ops: seq<Op>, file: seq<byte>): seq<Answer> {
    if ops == [] then []
    else [FlatAnswer(ops[0], file)] + FlatAnswers(ops[1..], FlatFile(ops[0], file))
  }

  // ----- what a run does, call by call

  lemma {:induction false} RunStep(ops: seq<Op>, file: seq<byte>, i: nat)
    requires i < |ops|
    ensures FlatRun(ops[..i + 1], file) == FlatFile(ops[i], FlatRun(ops[..i], file))
    ensures |FlatAnswers(ops, file)| == |ops|
    ensures FlatAnswers(ops, file)[i] == FlatAnswer(ops[i], FlatRun(ops[..i], file))
    decreases i
  {
    Answered(ops, file);
    if i == 0 {
      assert ops[..1][1..] == [];
    } else {
      RunStep(ops[1..], FlatFile(ops[0], file), i - 1);
      assert ops[..i][1..] == ops[1..][..i - 1] && ops[..i + 1][1..] == ops[1..][..i];
    }
  }

  lemma {:induction false} Answered(ops: seq<Op>, file: seq<byte>)
    ensures |FlatAnswers(ops, file)| == |ops|
    decreases |ops|
  {
    if ops != [] { Answered(ops[1..], FlatFile(ops[0], file)); }
  }

  /** Every call is answered: a read with the bytes at its place, as far as there are any, the others with sizes. */
  lemma RunAnswers(ops: seq<Op>, file: seq<byte>, i: nat)
    requires i < |ops|
    ensures |FlatAnswers(ops, file)| == |ops|
    ensures var answer, f := FlatAnswers(ops, file)[i], FlatRun(ops[..i], file);
      match ops[i]
      case Write(buf, _) => answer.res == |buf| && answer.bytes == []
      case Read(size, offset) =>
        && answer.res == |answer.bytes| == (if offset <= |f| then Min(size, |f| - offset) else 0)
        && forall p | 0 <= p < answer.res :: answer.bytes[p] == f[offset + p]
      case Truncate(_) => answer.res == 0 && answer.bytes == []
      case GetSize => answer.res == |f| && answer.bytes == []
  {
    RunStep(ops, file, i);
  }

  /** And every call leaves its bytes, and no others changed. */
  lemma RunContents(ops: seq<Op>, file: seq<byte>, i: nat)
    requires i < |ops|
    ensures FlatRun([], file) == file && FlatRun(ops[..|ops|], file) == FlatRun(ops, file)
    ensures var f, f' := FlatRun(ops[..i], file), FlatRun(ops[..i + 1], file);
      match ops[i]
      case Write(buf, offset) =>
        && |f'| == (if buf == [] then |f| else Max(|f|, offset + |buf|))
        && forall p | 0 <= p < |f'| ::
          f'[p] == if offset <= p < offset + |buf| then buf[p - offset] else if p < |f| then f[p] else 0
      case Truncate(size) => |f'| == size && forall p | 0 <= p < size :: f'[p] == if p < |f| then f[p] else 0
      case _ => f' == f
  {
    RunStep(ops, file, i);
    assert ops[..|ops|] == ops;
    match ops[i]
    case Write(buf, offset) =>
      if buf != [] { PwriteWrites(FlatRun(ops[..i], file), offset, buf); }
    case _ =>
  }

  /** A byte stays as written until a write covers it or a truncate cuts it off. */
  lemma {:induction false} LatestByte(ops: seq<Op>, file: seq<byte>, j: nat, i: nat, p: nat)
    requires j < i <= |ops| && ops[j].Write? && ops[j].offset <= p < ops[j].offset + |ops[j].buf|
    requires forall l | j < l < i ::
      && !(ops[l].Write? && ops[l].offset <= p < ops[l].offset + |ops[l].buf|)
      && !(ops[l].Truncate? && ops[l].size <= p)
    ensures p < |FlatRun(ops[..i], file)| && FlatRun(ops[..i], file)[p] == ops[j].buf[p - ops[j].offset]
    decreases i
  {
    RunContents(ops, file, i - 1);
    if j < i - 1 { LatestByte(ops, file, j, i - 1, p); }
  }

  /** So a read returns, for every byte it covers, what was last written there. */
  lemma ReadsLatest(ops: seq<Op>, file: seq<byte>, j: nat, i: nat, p: nat)
    requires j < i < |ops| && ops[j].Write? && ops[j].offset <= p < ops[j].offset + |ops[j].buf|
    requires forall l | j < l < i ::
      && !(ops[l].Write? && ops[l].offset <= p < ops[l].offset + |ops[l].buf|)
      && !(ops[l].Truncate? && ops[l].size <= p)
    requires ops[i].Read? && ops[i].offset <= p < ops[i].offset + ops[i].size
    ensures |FlatAnswers(ops, file)| == |ops|
    ensures var answer := FlatAnswers(ops, file)[i];
      p - ops[i].offset < |answer.bytes| && answer.bytes[p - ops[i].offset] == ops[j].buf[p - ops[j].offset]
  {
    LatestByte(ops, file, j, i, p);
    RunAnswers(ops, file, i);
  }

  /** A read of the range just written returns the bytes written. */
  lemma WriteThenRead(ops: seq<Op>, file: seq<byte>, i: nat)
    requires 0 < i < |ops| && ops[i - 1].Write? && ops[i] == Read(|ops[i - 1].buf|, ops[i - 1].offset)
    ensures |FlatAnswers(ops, file)| == |ops|
    ensures FlatAnswers(ops, file)[i].bytes == ops[i - 1].buf
    ensures FlatAnswers(ops, file)[i].res == |ops[i - 1].buf|
  {
    RunAnswers(ops, file, i);
    RunContents(ops, file, i - 1);
    var answer, buf := FlatAnswers(ops, file)[i], ops[i - 1].buf;
    forall p | 0 <= p < |buf| ensures p < |answer.bytes| && answer.bytes[p] == buf[p] {
      ReadsLatest(ops, file, i - 1, i, ops[i].offset + p);
    }
  }
}
