/** The append-only operation log of `wal.rs`, one line per operation. */
module WalFile {
  import opened Results
  import opened Lsm

  /** A line of the file: blank, a parsable operation, or neither. */
  datatype Line = Blank | Entry(op: WalOp) | Garbled

  function Ops(file: seq<Line>): Result<seq<WalOp>> {
    if file == [] then Ok([])
    else
      match file[0]
      case Blank => Ops(file[1..])
      case Garbled => Err(BadWalLine)
      case Entry(op) =>
        var rest :- Ops(file[1..]);
        Ok([op] + rest)
  }

  /** Appending an entry appends exactly that operation to what a replay reads. */
  lemma {:induction false} OpsSnoc(file: seq<Line>, op: WalOp)
    ensures Ops(file + [Entry(op)]) == if Ops(file).Ok? then Ok(Ops(file).value + [op]) else Ops(file)
  {
    var all := file + [Entry(op)];
    if file == [] {
      assert all[1..] == [] && all[0] == Entry(op);
      assert Ops(all[1..]) == Ok([]);
      assert [op] + [] == [op] && [] + [op] == [op];
    } else {
      assert all[1..] == file[1..] + [Entry(op)] && all[0] == file[0];
      OpsSnoc(file[1..], op);
      if file[0].Entry? && Ops(file[1..]).Ok? {
        var first, rest := [file[0].op], Ops(file[1..]).value;
        assert first + (rest + [op]) == (first + rest) + [op];
      }
    }
  }

  /** A log reads back exactly when no line is garbled, and then in as many operations as it has entries. */
  lemma {:induction false} OpsMeans(file: seq<Line>)
    ensures Ops(file).Ok? <==> Garbled !in file
    ensures Ops(file).Ok? ==> |Ops(file).value| == |multiset(file)| - multiset(file)[Blank]
  {
    if file != [] {
      OpsMeans(file[1..]);
      assert file == [file[0]] + file[1..];
    }
  }

  class Wal {
    var file: seq<Line>

    constructor (file: seq<Line>)
      ensures this.file == file
    {
      this.file := file;
    }

    /** One line, written and flushed, or (when the write fails) nothing. */
    method Append(op: WalOp, ioOk: bool) returns (r: Result<()>)
      modifies this
      ensures r.Ok? <==> ioOk
      ensures file == if ioOk then old(file) + [Entry(op)] else old(file)
    {
      if !ioOk { return Err(IoFailure); }
      file := file + [Entry(op)];
      return Ok(());
    }

    /** Two opens: the one that empties the file, and the one that returns to appending. */
    method Truncate(emptied: bool, reopened: bool) returns (r: Result<()>)
      modifies this
      ensures r.Ok? <==> emptied && reopened
      ensures file == if emptied then [] else old(file)
    {
      if !emptied { return Err(IoFailure); }
      file := [];
      if !reopened { return Err(IoFailure); }
      return Ok(());
    }

    method Replay() returns (r: Result<seq<WalOp>>)
      ensures r == Ops(file) && (r.Ok? <==> Garbled !in file)
    {
      OpsMeans(file);
      var ops: seq<WalOp> := [];
      assert Ops(file).Ok? ==> [] + Ops(file).value == Ops(file).value;
      for i := 0 to |file|
        invariant Ops(file) == if Ops(file[i..]).Ok? then Ok(ops + Ops(file[i..]).value) else Ops(file[i..])
      {
        assert file[i..][0] == file[i] && file[i..][1..] == file[i + 1..];
        match file[i] {
          case Blank =>
          case Garbled => return Err(BadWalLine);
          case Entry(op) =>
            ghost var rest := Ops(file[i + 1..]);
            assert rest.Ok? ==> ops + ([op] + rest.value) == (ops + [op]) + rest.value;
            ops := ops + [op];
        }
      }
      assert file[|file|..] == [];
      assert ops + [] == ops;
      return Ok(ops);
    }
  }
}
