/** kerberos_session.go, lines 330-367: the reader that bounds an HTTP response body. */
module BoundedReader {

  import opened Wrappers
  import opened Bytes

  datatype ReadError = Eof | Failed | LimitExceeded

  /** The error that comes with the bytes of one Read; `More` is Go's nil error. */
  datatype Status = More | Stop(error: ReadError)

  /** The state of an io.Reader.  A raw body delivers the chunks that the network happens to give, then ends; `early`
      says whether the ending comes with the last bytes or in a read of its own. */
  datatype Reader =
    | Raw(chunks: seq<bytes>, ending: ReadError, early: bool)
    | Bounded(inner: Reader, remaining: nat, overflow: bool)

  /** One Read with a buffer of `n` bytes. */
  function ReadStep(r: Reader, n: nat): (step: (Reader, bytes, Status))
    ensures |step.1| <= n
  {
    match r
    case Raw(chunks, ending, early) =>
      if |chunks| == 0 then (r, [], Stop(ending))
      else if |chunks[0]| <= n then
        (r.(chunks := chunks[1..]), chunks[0], if early && |chunks| == 1 then Stop(ending) else More)
      else (r.(chunks := [chunks[0][n..]] + chunks[1..]), chunks[0][..n], More)
    case Bounded(inner, remaining, overflow) =>
      if overflow then (r, [], Stop(LimitExceeded))
      else
        var (inner', data, status) := ReadStep(inner, Min(n, remaining + 1));
        if |data| > remaining then (Bounded(inner', remaining, true), data[..remaining], Stop(LimitExceeded))
        else (Bounded(inner', remaining - |data|, false), data, status)
  }

  /** What a reader delivers in all, however it is read. */
  function Drain(r: Reader): (bytes, ReadError) {
    match r
    case Raw(chunks, ending, _) => (Flatten(chunks), ending)
    case Bounded(inner, remaining, overflow) =>
      if overflow then ([], LimitExceeded)
      else
        var (data, ending) := Drain(inner);
        if |data| <= remaining then (data, ending) else (data[..remaining], LimitExceeded)
  }

  /** The bytes of the network that have not been taken yet. */
  function Source(r: Reader): bytes {
    match r
    case Raw(chunks, _, _) => Flatten(chunks)
    case Bounded(inner, _, _) => Source(inner)
  }

  function Size(r: Reader): nat {
    match r
    case Raw(chunks, _, _) => |chunks| + |Flatten(chunks)|
    case Bounded(inner, _, _) => Size(inner)
  }

  /** One read with a buffer of `n` bytes splits what is delivered in all. */
  predicate Delivers(r: Reader, n: nat) {
    var (r', data, status) := ReadStep(r, n);
    Drain(r) == match status
                case Stop(error) => (data, error)
                case More => (data + Drain(r').0, Drain(r').1)
  }

  lemma RawDelivers(chunks: seq<bytes>, ending: ReadError, early: bool, n: nat)
    ensures Delivers(Raw(chunks, ending, early), n)
  {
    if |chunks| > 0 {
      CutChunk(chunks, n);
      if |chunks| == 1 {
        assert chunks[1..] == [] && Flatten(chunks[1..]) == [];
        assert chunks[0] + [] == chunks[0];
      }
    }
  }

  lemma CutConcat(data: bytes, rest: bytes, k: nat)
    ensures k < |data| ==> (data + rest)[..k] == data[..k]
    ensures |data| <= k < |data| + |rest| ==> (data + rest)[..k] == data + rest[..k - |data|]
  {
  }

  lemma BoundedDelivers(inner: Reader, remaining: nat, n: nat)
    requires Delivers(inner, Min(n, remaining + 1))
    ensures Delivers(Bounded(inner, remaining, false), n)
  {
    var (inner', data, status) := ReadStep(inner, Min(n, remaining + 1));
    if status.More? {
      CutConcat(data, Drain(inner').0, remaining);
    }
  }

  /** One read splits what is delivered in all, whatever the buffer size. */
  lemma {:induction false} ReadDelivers(r: Reader, n: nat)
    ensures Delivers(r, n)
  {
    match r
    case Raw(chunks, ending, early) =>
      RawDelivers(chunks, ending, early, n);
    case Bounded(inner, remaining, overflow) =>
      if !overflow {
        ReadDelivers(inner, Min(n, remaining + 1));
        BoundedDelivers(inner, remaining, n);
      }
  }

  lemma CutChunk(chunks: seq<bytes>, n: nat)
    requires |chunks| > 0
    ensures n < |chunks[0]| ==> Flatten(chunks) == chunks[0][..n] + Flatten([chunks[0][n..]] + chunks[1..])
  {
    if n < |chunks[0]| {
      var cut := [chunks[0][n..]] + chunks[1..];
      assert cut[1..] == chunks[1..];
      assert chunks[0][..n] + (chunks[0][n..] + Flatten(chunks[1..])) == chunks[0] + Flatten(chunks[1..]);
    }
  }

  /** A read takes from the network what it returns, and one byte more only when it reports the limit. */
  lemma {:induction false} ReadTakes(r: Reader, n: nat) returns (taken: bytes)
    ensures var (r', data, status) := ReadStep(r, n);
            && Source(r) == taken + Source(r')
            && |data| <= |taken| <= n
            && (status != Stop(LimitExceeded) ==> |taken| == |data|)
            && |taken| <= |data| + 1
  {
    var (r', data, status) := ReadStep(r, n);
    match r
    case Raw(chunks, _, _) =>
      taken := data;
      if |chunks| == 0 {
        assert Source(r) == [] + Source(r');
      } else {
        CutChunk(chunks, n);
      }
    case Bounded(inner, remaining, overflow) =>
      if overflow {
        taken := [];
        assert Source(r) == [] + Source(r');
      } else {
        taken := ReadTakes(inner, Min(n, remaining + 1));
      }
  }

  /** Every read that does not stop makes the rest smaller, if its buffer is not empty. */
  lemma {:induction false} ReadProgresses(r: Reader, n: nat)
    requires n > 0 && ReadStep(r, n).2.More?
    ensures Size(ReadStep(r, n).0) < Size(r)
  {
    match r
    case Raw(chunks, _, _) =>
      CutChunk(chunks, n);
    case Bounded(inner, remaining, _) =>
      ReadProgresses(inner, Min(n, remaining + 1));
  }

  /** Two stacked bounds act as the smaller one: bootstrap bounds the body twice, by the same limit. */
  lemma StackedBounds(r: Reader, inner: nat, outer: nat)
    ensures Drain(Bounded(Bounded(r, inner, false), outer, false)).0 == Drain(Bounded(r, Min(inner, outer), false)).0
    ensures Drain(Bounded(Bounded(r, inner, false), outer, false)).1 == Drain(Bounded(r, Min(inner, outer), false)).1
  {
    var data := Drain(r).0;
    if |data| > inner && inner > outer {
      assert data[..inner][..outer] == data[..outer];
    }
  }

  // ----- the reader object -----

  class BoundedReadCloser {
    var reader: Reader
    var remaining: nat
    var overflow: bool

    constructor (reader: Reader, limit: nat)
      ensures View() == Bounded(reader, limit, false)
    {
      this.reader, remaining, overflow := reader, limit, false;
    }

    function View(): Reader
      reads this
    {
      Bounded(reader, remaining, overflow)
    }

    method Read(length: nat) returns (data: bytes, status: Status)
      modifies this
      ensures (View(), data, status) == ReadStep(old(View()), length)
    {
      if overflow {
        return [], Stop(LimitExceeded);
      }
      var buffer := length;
      if buffer > remaining + 1 {
        buffer := remaining + 1;
      }
      var (reader', read, error) := ReadStep(reader, buffer);
      reader := reader';
      if |read| > remaining {
        overflow := true;
        return read[..remaining], Stop(LimitExceeded);
      }
      remaining := remaining - |read|;
      return read, error;
    }
  }

  /** io.ReadAll, with the buffer sizes that its growing buffer happens to offer. */
  method ReadAll(reader: BoundedReadCloser, sizes: nat -> nat) returns (data: bytes, error: ReadError)
    requires forall k :: sizes(k) > 0
    modifies reader
    ensures (data, error) == Drain(old(reader.View()))
    ensures exists taken ::
              old(Source(reader.View())) == taken + Source(reader.View()) && |taken| <= |data| + 1
  {
    data := [];
    var k := 0;
    ghost var taken: bytes := [];
    assert [] + Drain(reader.View()).0 == Drain(reader.View()).0;
    assert [] + Source(reader.View()) == Source(reader.View());
    while true
      invariant old(Drain(reader.View())) == (data + Drain(reader.View()).0, Drain(reader.View()).1)
      invariant old(Source(reader.View())) == taken + Source(reader.View()) && |taken| == |data|
      decreases Size(reader.View())
    {
      ghost var before := reader.View();
      var size := sizes(k);
      var read, status := reader.Read(size);
      ReadDelivers(before, size);
      ghost var step := ReadTakes(before, size);
      Regroup(taken, step, Source(reader.View()));
      Regroup(data, read, Drain(reader.View()).0);
      taken := taken + step;
      data := data + read;
      if status.Stop? {
        return data, status.error;
      }
      ReadProgresses(before, size);
      k := k + 1;
    }
  }

  lemma Regroup(a: bytes, b: bytes, c: bytes)
    ensures a + (b + c) == (a + b) + c
  {
  }

  /** What readBoundedBody returns: the bytes, and the error if it is not nil. */
  function BoundedBody(body: Option<Reader>, limit: nat): (bytes, Option<ReadError>) {
    if body.None? then ([], None)
    else
      var (data, ending) := Drain(body.value);
      if |data| > limit then (data[..limit], Some(LimitExceeded))
      else (data, if ending == Eof then None else Some(ending))
  }

  /** readBoundedBody returns the whole body if it fits the limit, and otherwise exactly the first `limit` bytes with
      the limit error; it takes at most one byte beyond the limit from the network. */
  method ReadBoundedBody(body: Option<Reader>, limit: nat, sizes: nat -> nat)
    returns (data: bytes, error: Option<ReadError>, ghost left: bytes)
    requires forall k :: sizes(k) > 0
    ensures (data, error) == BoundedBody(body, limit)
    ensures body.None? ==> data == [] && error == None
    ensures body.Some? && body.value.Raw? ==>
              var (whole, ending) := (Flatten(body.value.chunks), body.value.ending);
              && (|whole| <= limit ==> data == whole && error == if ending == Eof then None else Some(ending))
              && (|whole| > limit ==> data == whole[..limit] && error == Some(LimitExceeded))
    ensures body.Some? ==> exists taken :: Source(body.value) == taken + left && |taken| <= limit + 1
  {
    left := [];
    if body.None? {
      return [], None, [];
    }
    var reader := new BoundedReadCloser(body.value, limit);
    var ending: ReadError;
    data, ending := ReadAll(reader, sizes);
    left := Source(reader.View());
    error := if ending == Eof then None else Some(ending);
  }
}
