/** The duplicate set: which messages of an originator have been processed, in a window of 32 sequence numbers
    (section 3.4 of RFC 3626). */
module DuplicateSet {

  const MAX_TOO_LOW: nat := 16

  type Seqno = n: nat | n < 0x1_0000

  function Zeros(n: nat): (z: seq<bool>)
    ensures |z| == n && forall i :: 0 <= i < n ==> !z[i]
  {
    if n == 0 then [] else Zeros(n - 1) + [false]
  }

  /** A 32-bit register, lowest bit first. */
  type Bits = b: seq<bool> | |b| == 32 witness Zeros(32)

  const NO_BITS: Bits := Zeros(32)

  function ShiftLeft(b: Bits, d: nat): Bits {
    seq(32, i requires 0 <= i < 32 => i >= d && b[i - d])
  }

  function SetBit(b: Bits, i: nat): Bits
    requires i < 32
  {
    b[i := true]
  }

  /** The state of one entry. */
  datatype Dup = Dup(seqnr: Seqno, tooLow: nat, bits: Bits)

  /** What becomes of an entry, and whether the message is to be processed. */
  datatype Outcome = Outcome(entry: Dup, process: bool)

  /** The bit of the sequence number that creates an entry is not recorded. */
  function Created(seqnr: Seqno): Dup {
    Dup(seqnr, 0, NO_BITS)
  }

  /** The difference of two sequence numbers; only large positive ones are taken for wrap-around. */
  function Diff(seqnr: Seqno, last: Seqno): int {
    var diff: int := seqnr - last;
    if diff > 0x8000 then diff - 0x1_0000 else diff
  }

  function TooLow(e: Dup, seqnr: Seqno): Outcome {
    if e.tooLow + 1 > MAX_TOO_LOW then Outcome(Dup(seqnr, 0, SetBit(NO_BITS, 0)), true)
    else Outcome(Dup(e.seqnr, e.tooLow + 1, e.bits), false)
  }

  /** One message from a known originator. */
  function Step(e: Dup, seqnr: Seqno): Outcome {
    var diff: int := Diff(seqnr, e.seqnr);
    if diff < -31 then TooLow(e, seqnr)
    else if diff <= 0 then
      var at: nat := -diff;
      if e.bits[at] then Outcome(Dup(e.seqnr, 0, e.bits), false)
      else Outcome(Dup(e.seqnr, 0, SetBit(e.bits, at)), true)
    else Outcome(Dup(seqnr, 0, SetBit(ShiftLeft(e.bits, diff), 0)), true)
  }

  // ---------- The set ----------

  class DupEntry {
    var seqnr: Seqno
    var tooLowCounter: nat
    var bits: Bits
    var validUntil: nat

    constructor (seqnr: Seqno, validUntil: nat)
      ensures State() == Created(seqnr) && this.validUntil == validUntil
    {
      this.seqnr, tooLowCounter, bits, this.validUntil := seqnr, 0, NO_BITS, validUntil;
    }

    function State(): Dup
      reads this
    {
      Dup(seqnr, tooLowCounter, bits)
    }

    /** The update of a known entry. */
    method Process(seqnr: Seqno, validUntil: nat) returns (process: bool)
      modifies this
      ensures State() == Step(old(State()), seqnr).entry && process == Step(old(State()), seqnr).process
      ensures this.validUntil == if validUntil > old(this.validUntil) then validUntil else old(this.validUntil)
    {
      var diff: int := seqnr - this.seqnr;
      if validUntil > this.validUntil {
        this.validUntil := validUntil;
      }
      if diff > 0x8000 {
        diff := diff - 0x1_0000;
      }
      if diff < -31 {
        tooLowCounter := tooLowCounter + 1;
        if tooLowCounter > MAX_TOO_LOW {
          tooLowCounter := 0;
          this.seqnr := seqnr;
          bits := SetBit(NO_BITS, 0);
          return true;
        }
        return false;
      }
      tooLowCounter := 0;
      if diff <= 0 {
        if bits[-diff] {
          return false;
        }
        bits := SetBit(bits, -diff);
        return true;
      } else if diff < 32 {
        bits := ShiftLeft(bits, diff);
      } else {
        bits := NO_BITS;
        ghost var was := old(State());
        assert ShiftLeft(was.bits, diff) == NO_BITS;
      }
      bits := SetBit(bits, 0);
      this.seqnr := seqnr;
      process := true;
    }
  }

  class DuplicateTable {
    var entries: map<nat, DupEntry>

    constructor ()
      ensures Valid() && entries == map[]
    {
      entries := map[];
    }

    /** Originators do not share entries. */
    ghost predicate Valid()
      reads this
    {
      forall a, b :: a in entries && b in entries && a != b ==> entries[a] != entries[b]
    }

    /** olsr_shall_process_message. */
    method ShallProcess(ip: nat, seqnr: Seqno, validUntil: nat) returns (process: bool)
      requires Valid()
      modifies this, entries.Values
      ensures Valid() && ip in entries && forall a :: a in entries <==> a == ip || a in old(entries)
      ensures forall a :: a in old(entries) ==> entries[a] == old(entries)[a]
      ensures forall a :: a in old(entries) && a != ip ==> entries[a].State() == old(entries[a].State())
      ensures ip !in old(entries) ==> process && fresh(entries[ip]) && entries[ip].State() == Created(seqnr)
      ensures ip in old(entries) ==> var o := Step(old(entries[ip].State()), seqnr);
              process == o.process && entries[ip].State() == o.entry
      ensures ip !in old(entries) ==> entries[ip].validUntil == validUntil
      ensures forall a :: a in old(entries) ==>
                            var was := old(entries[a].validUntil);
                            entries[a].validUntil == if a == ip && validUntil > was then validUntil else was
    {
      if ip !in entries {
        var entry := new DupEntry(seqnr, validUntil);
        entries := entries[ip := entry];
        return true;
      }
      process := entries[ip].Process(seqnr, validUntil);
    }
  }

  // ---------- The window refines the history ----------

  /** hist holds the numbers processed so far: none is beyond the newest, and the bits are the last 32 of them. */
  ghost predicate Refines(e: Dup, hist: set<nat>) {
    && (forall s :: s in hist ==> s <= e.seqnr)
    && forall i :: 0 <= i < 32 ==> (e.bits[i] <==> i <= e.seqnr && e.seqnr - i in hist)
  }

  /** No wrap-around between the number and the newest one, and no restart. */
  predicate Quiet(e: Dup, seqnr: Seqno) {
    && seqnr - e.seqnr <= 0x8000
    && (seqnr - e.seqnr < -31 ==> e.tooLow < MAX_TOO_LOW)
  }

  /** A message is processed exactly when its number is new, or in the window and not processed before. */
  lemma StepRefines(e: Dup, hist: set<nat>, seqnr: Seqno)
    requires Refines(e, hist) && Quiet(e, seqnr)
    ensures var o := Step(e, seqnr);
            && Refines(o.entry, if o.process then hist + {seqnr} else hist)
            && (o.process <==> seqnr > e.seqnr || (e.seqnr - seqnr < 32 && seqnr !in hist))
  {
    if e.seqnr - 31 <= seqnr <= e.seqnr {
      var at := e.seqnr - seqnr;
      assert e.bits[at] <==> seqnr in hist;
    }
  }

  function Processed(e: Dup, seqs: seq<Seqno>): (r: seq<bool>)
    ensures |r| == |seqs|
    decreases |seqs|
  {
    if seqs == [] then [] else [Step(e, seqs[0]).process] + Processed(Step(e, seqs[0]).entry, seqs[1..])
  }

  function After(e: Dup, seqs: seq<Seqno>): Dup
    decreases |seqs|
  {
    if seqs == [] then e else After(Step(e, seqs[0]).entry, seqs[1..])
  }

  predicate QuietRun(e: Dup, seqs: seq<Seqno>)
    decreases |seqs|
  {
    seqs != [] ==> Quiet(e, seqs[0]) && QuietRun(Step(e, seqs[0]).entry, seqs[1..])
  }

  /** Over any quiet run no number is processed twice, nor any that was processed before the run. */
  lemma {:induction false} ProcessedOnce(e: Dup, hist: set<nat>, seqs: seq<Seqno>)
    requires Refines(e, hist) && QuietRun(e, seqs)
    ensures forall i :: 0 <= i < |seqs| && Processed(e, seqs)[i] ==> seqs[i] !in hist
    ensures forall i, j :: 0 <= i < j < |seqs| && Processed(e, seqs)[i] && Processed(e, seqs)[j] ==> seqs[i] != seqs[j]
    decreases |seqs|
  {
    if seqs != [] {
      hide Step, Refines, Quiet;
      var o := Step(e, seqs[0]);
      FirstOfRun(e, hist, seqs[0]);
      var later := if o.process then hist + {seqs[0]} else hist;
      ProcessedOnce(o.entry, later, seqs[1..]);
      var p, rest := Processed(e, seqs), Processed(o.entry, seqs[1..]);
      assert p[0] == o.process && forall i :: 1 <= i < |seqs| ==> p[i] == rest[i - 1] && seqs[i] == seqs[1..][i - 1];
    }
  }

  lemma FirstOfRun(e: Dup, hist: set<nat>, seqnr: Seqno)
    requires Refines(e, hist) && Quiet(e, seqnr)
    ensures var o := Step(e, seqnr);
            Refines(o.entry, if o.process then hist + {seqnr} else hist) && (o.process ==> seqnr !in hist)
  {
    StepRefines(e, hist, seqnr);
  }

  /** No number is processed twice. */
  ghost predicate OnceEach(seqs: seq<Seqno>, processed: seq<bool>)
    requires |processed| == |seqs|
  {
    forall i, j :: 0 <= i < j < |seqs| && processed[i] && processed[j] ==> seqs[i] != seqs[j]
  }

  /** From its creation on, an entry lets every number through at most once, the creating one aside. */
  lemma ProcessedOnceSinceCreation(seqnr: Seqno, seqs: seq<Seqno>)
    requires QuietRun(Created(seqnr), seqs)
    ensures OnceEach(seqs, Processed(Created(seqnr), seqs))
  {
    ProcessedOnce(Created(seqnr), {}, seqs);
  }

  // ---------- The number that creates an entry ----------

  /** seqnr comes in again while it is among the last 32 numbers. */
  ghost predicate BackInWindow(e: Dup, seqs: seq<Seqno>, seqnr: Seqno) {
    exists i :: 0 <= i < |seqs| && seqs[i] == seqnr && After(e, seqs[..i]).seqnr - seqnr < 32
  }

  ghost predicate LetThrough(e: Dup, seqs: seq<Seqno>, seqnr: Seqno) {
    exists i :: 0 <= i < |seqs| && seqs[i] == seqnr && Processed(e, seqs)[i]
  }

  lemma BackUnfold(e: Dup, seqs: seq<Seqno>, seqnr: Seqno)
    requires seqs != []
    ensures BackInWindow(e, seqs, seqnr) <==>
            (seqs[0] == seqnr && e.seqnr - seqnr < 32) || BackInWindow(Step(e, seqs[0]).entry, seqs[1..], seqnr)
  {
    hide Step;
    var later, rest := Step(e, seqs[0]).entry, seqs[1..];
    assert seqs[..0] == [];
    assert forall i :: 0 < i <= |seqs| ==> seqs[..i][1..] == rest[..i - 1] && seqs[..i][0] == seqs[0];
    if BackInWindow(e, seqs, seqnr) {
      var i :| 0 <= i < |seqs| && seqs[i] == seqnr && After(e, seqs[..i]).seqnr - seqnr < 32;
      assert i > 0 ==> rest[i - 1] == seqnr && After(later, rest[..i - 1]).seqnr - seqnr < 32;
    }
    if BackInWindow(later, rest, seqnr) {
      var i :| 0 <= i < |rest| && rest[i] == seqnr && After(later, rest[..i]).seqnr - seqnr < 32;
      assert seqs[i + 1] == seqnr && After(e, seqs[..i + 1]).seqnr - seqnr < 32;
    }
    if seqs[0] == seqnr && e.seqnr - seqnr < 32 {
      assert After(e, seqs[..0]).seqnr - seqnr < 32;
    }
  }

  lemma ThroughUnfold(e: Dup, seqs: seq<Seqno>, seqnr: Seqno)
    requires seqs != []
    ensures LetThrough(e, seqs, seqnr) <==>
            (seqs[0] == seqnr && Step(e, seqs[0]).process) || LetThrough(Step(e, seqs[0]).entry, seqs[1..], seqnr)
  {
    hide Step;
    var later, rest := Step(e, seqs[0]).entry, seqs[1..];
    assert forall i :: 0 <= i < |rest| ==> rest[i] == seqs[i + 1]
                                           && Processed(later, rest)[i] == Processed(e, seqs)[i + 1];
    if LetThrough(later, rest, seqnr) {
      var i :| 0 <= i < |rest| && rest[i] == seqnr && Processed(later, rest)[i];
      assert seqs[i + 1] == seqnr && Processed(e, seqs)[i + 1];
    }
    assert Processed(e, seqs)[0] == Step(e, seqs[0]).process;
  }

  /** A number that the history does not know is let through exactly if it comes in while it is in the window. */
  lemma {:induction false} UnrecordedIff(e: Dup, hist: set<nat>, seqs: seq<Seqno>, seqnr: Seqno)
    requires Refines(e, hist) && QuietRun(e, seqs) && seqnr !in hist && seqnr <= e.seqnr
    ensures LetThrough(e, seqs, seqnr) <==> BackInWindow(e, seqs, seqnr)
    decreases |seqs|
  {
    if seqs == [] {
    } else {
      hide Refines, LetThrough, BackInWindow;
      StepRefines(e, hist, seqs[0]);
      BackUnfold(e, seqs, seqnr);
      ThroughUnfold(e, seqs, seqnr);
      var o := Step(e, seqs[0]);
      if seqs[0] != seqnr || !o.process {
        UnrecordedIff(o.entry, if o.process then hist + {seqs[0]} else hist, seqs[1..], seqnr);
      }
    }
  }

  /** Over the life of an entry, the message that created it included, no number is processed twice unless the creating
      number comes in again while it is among the last 32. */
  lemma OnceOverLifeIff(seqnr: Seqno, seqs: seq<Seqno>)
    requires QuietRun(Created(seqnr), seqs)
    ensures OnceEach([seqnr] + seqs, [true] + Processed(Created(seqnr), seqs))
            <==> !BackInWindow(Created(seqnr), seqs, seqnr)
  {
    hide Processed, QuietRun, Refines, BackInWindow, OnceEach;
    NothingRefines(seqnr);
    UnrecordedIff(Created(seqnr), {}, seqs, seqnr);
    ProcessedOnceSinceCreation(seqnr, seqs);
    OneInFront(seqnr, seqs, Processed(Created(seqnr), seqs));
  }

  lemma OneInFront(seqnr: Seqno, seqs: seq<Seqno>, processed: seq<bool>)
    requires |processed| == |seqs| && OnceEach(seqs, processed)
    ensures OnceEach([seqnr] + seqs, [true] + processed)
            <==> forall i :: 0 <= i < |seqs| && processed[i] ==> seqs[i] != seqnr
  {
    var all, through := [seqnr] + seqs, [true] + processed;
    if i :| 0 <= i < |seqs| && processed[i] && seqs[i] == seqnr {
      assert all[0] == all[i + 1] && through[0] && through[i + 1];
    } else {
      assert forall j :: 0 < j < |all| ==> all[j] == seqs[j - 1] && through[j] == processed[j - 1];
    }
  }

  lemma NothingRefines(seqnr: Seqno)
    ensures Refines(Created(seqnr), {})
  {
  }

  /** The creating number twice more in a row: it is processed once more, and only once. */
  lemma CreatorTwice(seqnr: Seqno)
    ensures Processed(Created(seqnr), [seqnr, seqnr]) == [true, false]
            && BackInWindow(Created(seqnr), [seqnr, seqnr], seqnr)
  {
    var o := Step(Created(seqnr), seqnr);
    assert [seqnr, seqnr][1..] == [seqnr];
    assert Processed(o.entry, [seqnr]) == [false] by {
      assert [seqnr][1..] == [];
    }
    assert [seqnr, seqnr][..0] == [] && After(Created(seqnr), []).seqnr - seqnr < 32;
  }

  // ---------- Wrap-around ----------

  /** Numbers up to half the range behind are recognised across the wrap. */
  lemma BehindWraps(last: Seqno, k: nat)
    requires k < 0x8000
    ensures Diff((last + 0x1_0000 - k) % 0x1_0000, last) + k == 0
  {
  }

  /** Numbers up to half the range ahead are only recognised up to the wrap; past it they are taken for too low, and get
      through only as the restart that follows sixteen refusals. */
  lemma AheadIff(e: Dup, d: nat)
    requires 1 <= d <= 0x8000 && e.tooLow <= MAX_TOO_LOW
    ensures Step(e, (e.seqnr + d) % 0x1_0000).process <==> e.seqnr + d < 0x1_0000 || e.tooLow == MAX_TOO_LOW
  {
  }

  /** A number that is not too low does to the entry what it says: the bits move by its distance to the newest number,
      its own bit is set, and the count of too-low numbers starts over. Behind the newest number the wrap does not
      matter. */
  lemma StepEffect(e: Dup, d: nat)
    ensures d < 32 ==> var o := Step(e, (e.seqnr + 0x1_0000 - d) % 0x1_0000);
                       && o.process == !e.bits[d] && o.entry.seqnr == e.seqnr && o.entry.tooLow == 0
                       && forall i :: 0 <= i < 32 ==> (o.entry.bits[i] <==> i == d || e.bits[i])
    ensures 1 <= d <= 0x8000 && e.seqnr + d < 0x1_0000 ==>
              var o := Step(e, e.seqnr + d);
              && o.process && o.entry.seqnr == e.seqnr + d && o.entry.tooLow == 0
              && forall i :: 0 <= i < 32 ==> (o.entry.bits[i] <==> i == 0 || (i >= d && e.bits[i - d]))
  {
    if d < 32 {
      BehindWraps(e.seqnr, d);
    }
  }

  lemma {:induction false} AfterLast(e: Dup, seqs: seq<Seqno>)
    requires seqs != []
    ensures After(e, seqs) == Step(After(e, seqs[..|seqs| - 1]), seqs[|seqs| - 1]).entry
    decreases |seqs|
  {
    hide Step;
    if |seqs| > 1 {
      AfterLast(Step(e, seqs[0]).entry, seqs[1..]);
      assert seqs[1..][..|seqs| - 2] == seqs[..|seqs| - 1][1..];
    } else {
      assert seqs[1..] == [] && seqs[..0] == [];
    }
  }

  /** The last k numbers of the run are too low for the entry as it is after the run. */
  ghost predicate EndsTooLow(e: Dup, seqs: seq<Seqno>, k: nat)
    requires k <= |seqs|
  {
    forall i :: |seqs| - k <= i < |seqs| ==> Diff(seqs[i], After(e, seqs).seqnr) < -31
  }

  /** The counter counts the numbers at the end that were too low. */
  lemma {:induction false} CountsTooLow(e: Dup, seqs: seq<Seqno>, k: nat)
    requires e.tooLow == 0 && k <= |seqs| && k <= 16
    ensures After(e, seqs).tooLow <= 16 && After(e, seqs).tooLow <= |seqs|
    ensures After(e, seqs).tooLow >= k <==> EndsTooLow(e, seqs, k)
    decreases |seqs|
  {
    if seqs != [] {
      var before, last := seqs[..|seqs| - 1], seqs[|seqs| - 1];
      var f := After(e, before);
      AfterLast(e, seqs);
      assert EndsTooLow(e, seqs, k) && k > 0 ==> Diff(last, After(e, seqs).seqnr) < -31;
      CountsTooLow(e, before, if k > 0 then k - 1 else 0);
      hide After;
      if k > 0 && Diff(last, f.seqnr) < -31 && f.tooLow < 16 {
        assert forall i :: 0 <= i < |before| ==> before[i] == seqs[i];
        assert EndsTooLow(e, seqs, k) <==> EndsTooLow(e, before, k - 1) by {
          assert After(e, seqs).seqnr == f.seqnr;
        }
      }
    }
  }

  /** Over the life of an entry, a number that is too low gets through exactly if the sixteen before it were too low as
      well. */
  lemma RestartIff(seqnr: Seqno, seqs: seq<Seqno>, s: Seqno)
    requires Diff(s, After(Created(seqnr), seqs).seqnr) < -31
    ensures Step(After(Created(seqnr), seqs), s).process <==>
            |seqs| >= 16 && forall i :: |seqs| - 16 <= i < |seqs| ==>
                                          Diff(seqs[i], After(Created(seqnr), seqs).seqnr) < -31
  {
    hide After;
    CountsTooLow(Created(seqnr), seqs, if |seqs| >= 16 then 16 else 0);
  }

  /** Up to sixteen numbers in a row that are too low change only the counter; the seventeenth restarts the entry. */
  lemma {:induction false} RestartAfter(e: Dup, seqs: seq<Seqno>)
    requires e.tooLow + |seqs| <= MAX_TOO_LOW && forall i :: 0 <= i < |seqs| ==> Diff(seqs[i], e.seqnr) < -31
    ensures After(e, seqs) == Dup(e.seqnr, e.tooLow + |seqs|, e.bits)
    ensures forall i :: 0 <= i < |seqs| ==> !Processed(e, seqs)[i]
    ensures e.tooLow + |seqs| == MAX_TOO_LOW ==> forall s: Seqno :: Diff(s, e.seqnr) < -31 ==>
                                                   Step(After(e, seqs), s) == Outcome(Dup(s, 0, SetBit(NO_BITS, 0)),
                                                                                      true)
    decreases |seqs|
  {
    if seqs != [] {
      var o := Step(e, seqs[0]);
      assert o == Outcome(Dup(e.seqnr, e.tooLow + 1, e.bits), false);
      RestartAfter(o.entry, seqs[1..]);
    }
  }
}
