/** One direction of a relay: the read-then-write loop of io.Copy, one call at a time. */
module Relay {
  import opened Common

  /** The size of the loop's buffer. */
  const CHUNK: nat := 32 * 1024

  datatype ReadEnd = More | AtEnd | Failed

  datatype Phase =
    | Reading
    | Writing(chunk: seq<byte>, end: ReadEnd)
    | Stopped(clean: bool)

  /** `taken` is what was read, `put` what has really gone out. */
  datatype Copier = Copier(taken: seq<byte>, put: seq<byte>, phase: Phase)

  const IDLE := Copier([], [], Reading)

  /** What one write came to: how many bytes really went out, and whether it ended in an error. */
  datatype Outcome = Outcome(put: nat, failed: bool)

  predicate Possible(w: Outcome, chunk: seq<byte>) {
    w.put <= |chunk|
  }

  function AfterRead(c: Copier, chunk: seq<byte>, end: ReadEnd): Copier {
    c.(taken := c.taken + chunk,
    phase := if chunk != [] then Writing(chunk, end) else if end.More? then Reading else Stopped(end.AtEnd?))
  }

  /** An error, or a short write, ends the loop; so does an error that came with the read. */
  function AfterWrite(c: Copier, w: Outcome): Copier
    requires c.phase.Writing? && Possible(w, c.phase.chunk)
  {
    c.(put := c.put + c.phase.chunk[..w.put],
    phase := if w.failed || w.put < |c.phase.chunk| then Stopped(false)
             else if c.phase.end.More? then Reading else Stopped(c.phase.end.AtEnd?))
  }

  /** Nothing is lost before the loop stops, and what went out is always a first part of what was read. */
  predicate InOrder(c: Copier) {
    && c.put <= c.taken
    && match c.phase
       case Reading => c.put == c.taken
       case Writing(chunk, _) => chunk != [] && c.put + chunk == c.taken
       case Stopped(clean) => clean ==> c.put == c.taken
  }

  lemma ReadKeepsOrder(c: Copier, chunk: seq<byte>, end: ReadEnd)
    requires InOrder(c) && c.phase.Reading?
    ensures InOrder(AfterRead(c, chunk, end))
  {
    assert c.put <= c.put + chunk;
    assert c.put + [] == c.put;
  }

  lemma WriteKeepsOrder(c: Copier, w: Outcome)
    requires InOrder(c) && c.phase.Writing? && Possible(w, c.phase.chunk)
    ensures InOrder(AfterWrite(c, w))
  {
    var chunk := c.phase.chunk;
    assert chunk[..w.put] + chunk[w.put..] == chunk;
    assert (c.put + chunk[..w.put]) + chunk[w.put..] == c.taken;
    if w.put == |chunk| {
      assert chunk[..w.put] == chunk;
    }
  }

  /**
    Bytes that come together with an error or the end of the stream are still written
    before the loop stops; a short write stops it although nothing failed.
   */
  lemma LastBytesGoOut(c: Copier, chunk: seq<byte>, end: ReadEnd, w: Outcome)
    requires InOrder(c) && c.phase.Reading? && chunk != [] && w.put <= |chunk|
    ensures var d := AfterRead(c, chunk, end);
            d.phase.Writing? && d.phase.chunk == chunk &&
            var e := AfterWrite(d, w);
            && e.put == c.put + chunk[..w.put] && e.taken == c.taken + chunk
            && (e.phase.Reading? <==> !w.failed && w.put == |chunk| && end.More?)
            && (e.phase == Stopped(true) <==> !w.failed && w.put == |chunk| && end.AtEnd?)
            && !e.phase.Writing?
  {
  }
}
