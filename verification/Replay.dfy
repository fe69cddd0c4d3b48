/**
 The replay window of a session (`MessageReceptionState` in matter/message/message_layer.py, after sections
 4.6.5.2 and 4.6.5.3 of the Matter Core Specification). The bitmap is an unbounded, never masked integer.
 */
module Replay {
  import opened Bytes
  import BitStruct

  const M := 0x1_0000_0000
  const WINDOW := 32

  // ---------------------------------------------------------------------- bits of an unbounded integer

  /** `x | (1 << p)`. */
  function SetBit(x: nat, p: nat): nat {
    if BitStruct.Bit(x, p) then x else x + Pow2(p)
  }

  /** `x << k`. */
  function ShiftLeft(x: nat, k: nat): nat {
    if k == 0 then x else 2 * ShiftLeft(x, k - 1)
  }

  lemma {:induction false} BitOfSum(x: nat, p: nat, q: nat)
    requires !BitStruct.Bit(x, p)
    ensures BitStruct.Bit(x + Pow2(p), q) <==> q == p || BitStruct.Bit(x, q)
  {
    if p > 0 {
      assert (x + Pow2(p)) / 2 == x / 2 + Pow2(p - 1);
      assert (x + Pow2(p)) % 2 == x % 2;
      if q > 0 { BitOfSum(x / 2, p - 1, q - 1); }
    } else {
      assert (x + 1) / 2 == x / 2;
    }
  }

  lemma BitOfSet(x: nat, p: nat, q: nat)
    ensures BitStruct.Bit(SetBit(x, p), q) <==> q == p || BitStruct.Bit(x, q)
  {
    if !BitStruct.Bit(x, p) { BitOfSum(x, p, q); }
  }

  lemma {:induction false} BitOfShift(x: nat, k: nat, q: nat)
    ensures BitStruct.Bit(ShiftLeft(x, k), q) <==> q >= k && BitStruct.Bit(x, q - k)
  {
    if k > 0 {
      var y := ShiftLeft(x, k - 1);
      assert (2 * y) / 2 == y;
      if q > 0 { BitOfShift(x, k - 1, q - 1); }
    }
  }

  lemma {:induction false} BitOfOnes(n: nat, p: nat)
    ensures BitStruct.Bit(Pow2(n) - 1, p) <==> p < n
  {
    if n > 0 {
      assert (Pow2(n) - 1) / 2 == Pow2(n - 1) - 1;
      if p > 0 { BitOfOnes(n - 1, p - 1); }
    } else {
      ZeroShr(p);
    }
  }

  lemma {:induction false} ZeroShr(p: nat)
    ensures BitStruct.Shr(0, p) == 0
  {
    if p > 0 { ZeroShr(p - 1); }
  }

  // ---------------------------------------------------------------------- one message

  datatype State = State(max: int, bitmap: nat)

  /** How a counter is received; only `Duplicate` is reported as a duplicate. */
  datatype Verdict = Duplicate | Window | NewMaximum

  function Initial(counter: int): State {
    State(counter, Pow2(32) - 1)
  }

  /** One of the 32 counters below the maximum, modulo 2^32. */
  predicate InWindow(max: int, counter: int) {
    0 <= counter < M && 1 <= (max - counter) % M <= WINDOW
  }

  /** One of the 2^31 - 1 counters above the maximum, modulo 2^32. */
  predicate InNextHalf(max: int, counter: int) {
    0 <= counter < M && 1 <= (counter - max) % M < M / 2
  }

  function ReceiveInWindow(s: State, counter: int): (State, Verdict) {
    var p := (s.max - 1 - counter) % M;
    if BitStruct.Bit(s.bitmap, p) then (s, Duplicate) else (s.(bitmap := SetBit(s.bitmap, p)), Window)
  }

  /** The old maximum is not recorded: the bits shifted in are all zero. */
  function UpdateMax(s: State, counter: int): State {
    State(counter, ShiftLeft(s.bitmap, (counter - s.max) % M))
  }

  function Encrypted(s: State, counter: int, hasMaximum: bool): (State, Verdict) {
    if counter == s.max then (s, Duplicate)
    else if InWindow(s.max, counter) then ReceiveInWindow(s, counter)
    else if (if hasMaximum then s.max + 1 <= counter < M else InNextHalf(s.max, counter)) then
      (UpdateMax(s, counter), NewMaximum)
    else (s, Duplicate)
  }

  function Unencrypted(s: State, counter: int): (State, Verdict) {
    if counter == s.max then (s, Duplicate)
    else if InWindow(s.max, counter) then ReceiveInWindow(s, counter)
    else (UpdateMax(s, counter), NewMaximum)
  }

  function Before(max: int, i: int): int {
    (max - i) % M
  }

  function After(max: int, i: int): int {
    (max + i) % M
  }

  lemma ModUnique(i: int, q: int)
    requires 0 <= i < M
    ensures (i + M * q) % M == i
  {
  }

  lemma ModBack(x: int, i: int)
    requires 0 <= i < M
    ensures (x - (x - i) % M) % M == i && (x + (i - x) % M) % M == i && ((x + i) % M - x) % M == i
  {
    var q := (x - i) / M;
    assert x - (x - i) % M == i + M * q;
    ModUnique(i, q);
    var r := (i - x) / M;
    assert x + (i - x) % M == i + M * (-r);
    ModUnique(i, -r);
    var t := (x + i) / M;
    assert (x + i) % M - x == i + M * (-t);
    ModUnique(i, -t);
  }

  lemma BeforeIff(max: int, counter: int, bound: int)
    requires 1 <= bound < M
    ensures (exists i :: 1 <= i <= bound && counter == Before(max, i)) <==>
            (0 <= counter < M && 1 <= (max - counter) % M <= bound)
  {
    forall i | 1 <= i <= bound && counter == Before(max, i) ensures (max - counter) % M == i {
      ModBack(max, i);
    }
    if 0 <= counter < M {
      ModBack(max, counter);
      assert counter == Before(max, (max - counter) % M);
    }
  }

  lemma AfterIff(max: int, counter: int)
    ensures (exists i :: 1 <= i < M / 2 && counter == After(max, i)) <==> InNextHalf(max, counter)
  {
    forall i | 1 <= i < M / 2 && counter == After(max, i) ensures (counter - max) % M == i {
      ModBack(max, i);
    }
    if 0 <= counter < M {
      ModBack(max, counter);
      assert counter == After(max, (counter - max) % M);
    }
  }

  class MessageReceptionState {
    var maxMessageCounter: int
    var receptionBitmap: nat

    ghost function Abs(): State
      reads this
    {
      State(maxMessageCounter, receptionBitmap)
    }

    constructor Init(initialCounter: int)
      ensures Abs() == Initial(initialCounter)
    {
      maxMessageCounter := initialCounter;
      receptionBitmap := Pow2(32) - 1;
    }

    /** Membership in the set of the 32 counters before the maximum. */
    method CounterInRange(counter: int) returns (inRange: bool)
      ensures inRange == InWindow(maxMessageCounter, counter)
    {
      var range := set i: int | 1 <= i <= WINDOW :: Before(maxMessageCounter, i);
      BeforeIff(maxMessageCounter, counter, WINDOW);
      inRange := counter in range;
    }

    method CounterAhead(counter: int) returns (ahead: bool)
      ensures ahead == InNextHalf(maxMessageCounter, counter)
    {
      var range := set i: int | 1 <= i < M / 2 :: After(maxMessageCounter, i);
      AfterIff(maxMessageCounter, counter);
      ahead := counter in range;
    }

    method InRangeDuplicate(counter: int) returns (duplicate: bool)
      modifies this
      ensures (Abs(), if duplicate then Duplicate else Window) == ReceiveInWindow(old(Abs()), counter)
    {
      var position := (maxMessageCounter - 1 - counter) % M;
      if BitStruct.Bit(receptionBitmap, position) {
        return true;
      }
      receptionBitmap := SetBit(receptionBitmap, position);
      return false;
    }

    method SetMax(counter: int)
      modifies this
      ensures Abs() == UpdateMax(old(Abs()), counter)
    {
      receptionBitmap := ShiftLeft(receptionBitmap, (counter - maxMessageCounter) % M);
      maxMessageCounter := counter;
    }

    /** True for a duplicate. */
    method ProcessReceptionEncrypted(counter: int, hasMaximum: bool) returns (duplicate: bool)
      modifies this
      ensures Abs() == Encrypted(old(Abs()), counter, hasMaximum).0
      ensures duplicate <==> Encrypted(old(Abs()), counter, hasMaximum).1.Duplicate?
    {
      if counter == maxMessageCounter {
        return true;
      }
      var inRange := CounterInRange(counter);
      if inRange {
        duplicate := InRangeDuplicate(counter);
      } else if hasMaximum {
        if maxMessageCounter + 1 <= counter <= M - 1 {
          SetMax(counter);
          return false;
        } else {
          return true;
        }
      } else {
        var ahead := CounterAhead(counter);
        if ahead {
          SetMax(counter);
          return false;
        } else {
          return true;
        }
      }
    }

    method ProcessReceptionUnencrypted(counter: int) returns (duplicate: bool)
      modifies this
      ensures Abs() == Unencrypted(old(Abs()), counter).0
      ensures duplicate <==> Unencrypted(old(Abs()), counter).1.Duplicate?
    {
      if counter == maxMessageCounter {
        return true;
      }
      var inRange := CounterInRange(counter);
      if inRange {
        duplicate := InRangeDuplicate(counter);
      } else {
        SetMax(counter);
        return false;
      }
    }
  }

  /** In every mode, a counter received twice in a row is a duplicate the second time. */
  lemma RepeatedAtOnce(s: State, counter: int, hasMaximum: bool)
    ensures var t := Encrypted(s, counter, hasMaximum).0; Encrypted(t, counter, hasMaximum) == (t, Duplicate)
    ensures var t := Unencrypted(s, counter).0; Unencrypted(t, counter) == (t, Duplicate)
  {
    var p := (s.max - 1 - counter) % M;
    BitOfSet(s.bitmap, p, p);
    hide BitStruct.Bit, SetBit, ShiftLeft, InWindow, Pow2;
  }

  // ---------------------------------------------------------------------- runs of a session

  /** Verdicts of a sequence of encrypted messages, with the session's own counter space. */
  function Run(s: State, counters: seq<int>): (r: (State, seq<Verdict>))
    ensures |r.1| == |counters|
  {
    if counters == [] then (s, [])
    else
      var (t, vs) := Run(s, counters[..|counters| - 1]);
      var (u, v) := Encrypted(t, counters[|counters| - 1], true);
      (u, vs + [v])
  }

  function Verdicts(counters: seq<int>): (vs: seq<Verdict>)
    ensures |vs| == |counters|
  {
    Run(Initial(0), counters).1
  }

  /** A reference receiver: the maximum, and the set of counters accepted through the window. */
  datatype Reference = Reference(max: int, seen: set<int>)

  /** Above the maximum, and not one of the 32 counters just below it modulo 2^32, which start out as seen. */
  predicate Ahead(max: int, counter: int) {
    max < counter < M && counter < max + M - WINDOW
  }

  function Receive(r: Reference, counter: int): (Reference, Verdict) {
    if Ahead(r.max, counter) then (Reference(counter, r.seen), NewMaximum)
    else if 0 <= counter && r.max - WINDOW <= counter < r.max && counter !in r.seen then
      (Reference(r.max, r.seen + {counter}), Window)
    else (r, Duplicate)
  }

  function ReferenceRun(counters: seq<int>): (r: (Reference, seq<Verdict>))
    ensures |r.1| == |counters|
  {
    if counters == [] then (Reference(0, {}), [])
    else
      var (t, vs) := ReferenceRun(counters[..|counters| - 1]);
      var (u, v) := Receive(t, counters[|counters| - 1]);
      (u, vs + [v])
  }

  /** Bit p stands for the counter max - 1 - p. */
  ghost predicate Represents(s: State, r: Reference) {
    && s.max == r.max && 0 <= r.max < M
    && (forall c | c in r.seen :: 0 <= c < r.max)
    && forall p: nat :: BitStruct.Bit(s.bitmap, p) <==> (-WINDOW <= r.max - 1 - p < 0 || r.max - 1 - p in r.seen)
  }

  lemma WindowWraps(max: int, counter: int)
    requires 0 <= max < M && InWindow(max, counter)
    ensures var p := (max - 1 - counter) % M;
            0 <= p < WINDOW && (counter < max ==> max - 1 - p == counter && max - WINDOW <= counter)
            && (counter >= max ==> max - 1 - p < 0 && max - 1 - p >= -WINDOW && !Ahead(max, counter))
  {
  }

  lemma OutsideWindow(max: int, counter: int)
    requires 0 <= max < M
    ensures 0 <= counter && max - WINDOW <= counter < max ==> InWindow(max, counter)
    ensures max < counter < M ==>
            (Ahead(max, counter) || InWindow(max, counter)) && (counter - max) % M == counter - max
  {
    if max < counter < M {
      assert (max - counter) % M == max - counter + M;
    }
  }

  lemma ShiftRepresents(s: State, r: Reference, counter: int)
    requires Represents(s, r) && r.max < counter < M && (counter - r.max) % M == counter - r.max
    ensures Represents(UpdateMax(s, counter), Reference(counter, r.seen))
  {
    var d := counter - r.max;
    forall p: nat
      ensures BitStruct.Bit(ShiftLeft(s.bitmap, d), p) <==>
              (-WINDOW <= counter - 1 - p < 0 || counter - 1 - p in r.seen)
    {
      BitOfShift(s.bitmap, d, p);
      hide BitStruct.Bit, ShiftLeft;
      if p >= d {
        assert r.max - 1 - (p - d) == counter - 1 - p;
      }
    }
  }

  /** The bitmap of all 32 ones marks only counters below zero. */
  lemma InitialRepresents()
    ensures Represents(Initial(0), Reference(0, {}))
  {
    forall p: nat ensures BitStruct.Bit(Initial(0).bitmap, p) <==> p < 32 {
      BitOfOnes(32, p);
    }
    hide BitStruct.Bit, Pow2;
  }

  lemma SetRepresents(s: State, r: Reference, counter: int, p: nat)
    requires Represents(s, r) && 0 <= counter < r.max && p == r.max - 1 - counter
    ensures Represents(s.(bitmap := SetBit(s.bitmap, p)), Reference(r.max, r.seen + {counter}))
  {
    forall q: nat ensures BitStruct.Bit(SetBit(s.bitmap, p), q) <==> q == p || BitStruct.Bit(s.bitmap, q) {
      BitOfSet(s.bitmap, p, q);
    }
    hide BitStruct.Bit, SetBit;
  }

  lemma StepRepresents(s: State, r: Reference, counter: int)
    requires Represents(s, r)
    ensures Represents(Encrypted(s, counter, true).0, Receive(r, counter).0)
    ensures Encrypted(s, counter, true).1 == Receive(r, counter).1
  {
    var p := (s.max - 1 - counter) % M;
    if counter == s.max {
    } else if InWindow(s.max, counter) {
      WindowWraps(s.max, counter);
      assert BitStruct.Bit(s.bitmap, p) <==> (-WINDOW <= r.max - 1 - p < 0 || r.max - 1 - p in r.seen);
      if counter < s.max && counter !in r.seen {
        SetRepresents(s, r, counter, p);
      }
    } else {
      OutsideWindow(s.max, counter);
      if s.max < counter < M { ShiftRepresents(s, r, counter); }
    }
  }

  /** Over every run the bitmap receiver gives the verdicts of the reference receiver. */
  lemma {:induction false} RunRefines(counters: seq<int>)
    ensures Represents(Run(Initial(0), counters).0, ReferenceRun(counters).0)
    ensures Verdicts(counters) == ReferenceRun(counters).1
  {
    hide Represents, Encrypted, Receive;
    if counters == [] {
      InitialRepresents();
    } else {
      var before := counters[..|counters| - 1];
      RunRefines(before);
      StepRepresents(Run(Initial(0), before).0, ReferenceRun(before).0, counters[|counters| - 1]);
    }
  }

  ghost predicate AcceptedAs(counters: seq<int>, verdicts: seq<Verdict>, i: nat, counter: int, v: Verdict)
    requires |verdicts| == |counters|
  {
    i < |counters| && counters[i] == counter && verdicts[i] == v
  }

  /** What the reference receiver's state says about the messages behind it. */
  ghost predicate Explains(r: Reference, counters: seq<int>, vs: seq<Verdict>)
    requires |vs| == |counters|
  {
    && (forall i: nat | i < |counters| && vs[i].NewMaximum? :: 0 < counters[i] <= r.max)
    && (r.max != 0 ==> exists i: nat :: AcceptedAs(counters, vs, i, r.max, NewMaximum))
    && (forall i: nat | i < |counters| && vs[i].Window? :: counters[i] in r.seen)
    && (forall c | c in r.seen :: 0 <= c < r.max && exists i: nat :: AcceptedAs(counters, vs, i, c, Window))
  }

  lemma ReceiveExplains(r: Reference, counters: seq<int>, vs: seq<Verdict>, counter: int)
    requires |vs| == |counters| && Explains(r, counters, vs) && r.max >= 0
    ensures Explains(Receive(r, counter).0, counters + [counter], vs + [Receive(r, counter).1])
  {
    var (t, v) := Receive(r, counter);
    var all, ws := counters + [counter], vs + [v];
    forall i: nat, c, w | AcceptedAs(counters, vs, i, c, w) ensures AcceptedAs(all, ws, i, c, w) {
    }
    assert AcceptedAs(all, ws, |counters|, counter, v);
  }

  lemma {:induction false} RunExplains(counters: seq<int>)
    ensures ReferenceRun(counters).0.max >= 0 && Explains(ReferenceRun(counters).0, counters, ReferenceRun(counters).1)
  {
    if counters != [] {
      var before := counters[..|counters| - 1];
      RunExplains(before);
      ReceiveExplains(ReferenceRun(before).0, before, ReferenceRun(before).1, counters[|counters| - 1]);
      assert before + [counters[|counters| - 1]] == counters;
    }
  }

  lemma {:induction false} RunPrefix(counters: seq<int>, n: nat)
    requires n <= |counters|
    ensures Verdicts(counters)[..n] == Verdicts(counters[..n])
    decreases |counters| - n
  {
    if n < |counters| {
      RunPrefix(counters, n + 1);
      assert counters[..n + 1][..n] == counters[..n];
      assert Verdicts(counters)[..n] == Verdicts(counters)[..n + 1][..n];
    } else {
      assert counters[..n] == counters;
    }
  }

  /** The verdict on message j is the reference receiver's, after the messages before it. */
  lemma VerdictAt(counters: seq<int>, j: nat)
    requires j < |counters|
    ensures var r := ReferenceRun(counters[..j]);
            r.1 == Verdicts(counters)[..j] && Verdicts(counters)[j] == Receive(r.0, counters[j]).1
  {
    hide Receive;
    RunPrefix(counters, j);
    RunPrefix(counters, j + 1);
    RunRefines(counters[..j]);
    RunRefines(counters[..j + 1]);
    assert counters[..j + 1][..j] == counters[..j];
    assert Verdicts(counters)[j] == Verdicts(counters)[..j + 1][j];
  }

  /** Every new maximum is larger than all counters accepted before it. */
  lemma MaximumIncreases(counters: seq<int>, i: nat, j: nat)
    requires i < j < |counters| && Verdicts(counters)[j].NewMaximum? && !Verdicts(counters)[i].Duplicate?
    ensures counters[i] < counters[j]
  {
    VerdictAt(counters, j);
    RunExplains(counters[..j]);
    hide ReferenceRun, Run;
    assert Verdicts(counters)[..j][i] == Verdicts(counters)[i] && counters[..j][i] == counters[i];
  }

  /** A counter is accepted at most once as a new maximum and then at most once through the window. */
  lemma AcceptedAtMostTwice(counters: seq<int>, i: nat, j: nat)
    requires i < j < |counters| && counters[i] == counters[j]
    requires !Verdicts(counters)[i].Duplicate? && !Verdicts(counters)[j].Duplicate?
    ensures Verdicts(counters)[i].NewMaximum? && Verdicts(counters)[j].Window?
  {
    VerdictAt(counters, j);
    RunExplains(counters[..j]);
    hide ReferenceRun, Run;
    assert Verdicts(counters)[..j][i] == Verdicts(counters)[i] && counters[..j][i] == counters[i];
  }

  ghost predicate Windowed(counters: seq<int>, counter: int) {
    exists i: nat :: AcceptedAs(counters, Verdicts(counters), i, counter, Window)
  }

  /** Bit p of the bitmap: the counter max - 1 - p is below zero, or was accepted through the window. */
  lemma BitmapMeaning(counters: seq<int>, p: nat)
    ensures var s := Run(Initial(0), counters).0;
            && 0 <= s.max < M
            && (BitStruct.Bit(s.bitmap, p) <==> (-WINDOW <= s.max - 1 - p < 0 || Windowed(counters, s.max - 1 - p)))
  {
    RunRefines(counters);
    RunExplains(counters);
    hide ReferenceRun, Run, BitStruct.Bit;
    var c := Run(Initial(0), counters).0.max - 1 - p;
    if i: nat :| AcceptedAs(counters, Verdicts(counters), i, c, Window) {
      assert counters[i] in ReferenceRun(counters).0.seen;
    }
  }

  ghost predicate Accepted(counters: seq<int>, counter: int) {
    exists i: nat :: i < |counters| && counters[i] == counter && !Verdicts(counters)[i].Duplicate?
  }

  /**
   At-most-once delivery fails exactly for a counter that was the maximum, has been overtaken by at most 32,
   and has not come through the window since.
   */
  lemma ReplayedIff(counters: seq<int>, counter: int)
    requires Accepted(counters, counter)
    ensures var s := Run(Initial(0), counters).0;
            !Encrypted(s, counter, true).1.Duplicate?
            <==> s.max - WINDOW <= counter < s.max && !Windowed(counters, counter)
  {
    RunRefines(counters);
    RunExplains(counters);
    var s, r := Run(Initial(0), counters).0, ReferenceRun(counters).0;
    StepRepresents(s, r, counter);
    hide ReferenceRun, Run, Encrypted;
    if i: nat :| AcceptedAs(counters, Verdicts(counters), i, counter, Window) {
      assert counters[i] in r.seen;
    }
  }

  /**
   A counter not accepted before is accepted exactly when it is ahead of the maximum or one of the 32 counters
   below it. Older ones are lost, and so are the topmost ones while the window wraps around zero.
   */
  lemma FreshAcceptedIff(counters: seq<int>, counter: int)
    requires !Accepted(counters, counter)
    ensures var s := Run(Initial(0), counters).0;
            !Encrypted(s, counter, true).1.Duplicate?
            <==> Ahead(s.max, counter) || (0 <= counter && s.max - WINDOW <= counter < s.max)
  {
    RunRefines(counters);
    RunExplains(counters);
    var s, r := Run(Initial(0), counters).0, ReferenceRun(counters).0;
    StepRepresents(s, r, counter);
    hide ReferenceRun, Run, Encrypted;
  }

  /** The shortest run that delivers a counter twice. */
  lemma OldMaximumReplayed()
    ensures Verdicts([1, 2, 1]) == [NewMaximum, NewMaximum, Window]
  {
    RunRefines([1, 2, 1]);
    assert [1, 2, 1][..2] == [1, 2] && [1, 2][..1] == [1] && [1][..0] == [];
    assert ReferenceRun([1]).1 == [NewMaximum];
    assert ReferenceRun([1, 2]).1 == [NewMaximum, NewMaximum];
  }

  // ---------------------------------------------------------------------- recording the old maximum

  /** The same receiver, except that a new maximum also sets the old maximum's bit. */
  function Recording(s: State, counter: int): (State, Verdict) {
    var (t, v) := Encrypted(s, counter, true);
    if v.NewMaximum? && counter > s.max then (t.(bitmap := SetBit(t.bitmap, counter - s.max - 1)), v) else (t, v)
  }

  function ReceiveRecording(r: Reference, counter: int): (Reference, Verdict) {
    var (t, v) := Receive(r, counter);
    if v.NewMaximum? then (t.(seen := t.seen + {r.max}), v) else (t, v)
  }

  function RecordingRun(s: State, counters: seq<int>): (r: (State, seq<Verdict>))
    ensures |r.1| == |counters|
  {
    if counters == [] then (s, [])
    else
      var (t, vs) := RecordingRun(s, counters[..|counters| - 1]);
      var (u, v) := Recording(t, counters[|counters| - 1]);
      (u, vs + [v])
  }

  /** Every counter accepted so far is remembered. */
  ghost predicate Remembers(s: State, r: Reference, counters: seq<int>, vs: seq<Verdict>)
    requires |vs| == |counters|
  {
    && Represents(s, r)
    && forall i: nat | i < |counters| && !vs[i].Duplicate? :: counters[i] == r.max || counters[i] in r.seen
  }

  lemma RecordingStep(s: State, r: Reference, counters: seq<int>, vs: seq<Verdict>, counter: int)
    requires |vs| == |counters| && Remembers(s, r, counters, vs)
    ensures Remembers(Recording(s, counter).0, ReceiveRecording(r, counter).0, counters + [counter],
                      vs + [Recording(s, counter).1])
    ensures Recording(s, counter).1 == Receive(r, counter).1
  {
    StepRepresents(s, r, counter);
    var (t, v) := Encrypted(s, counter, true);
    if v.NewMaximum? {
      assert s.max == r.max && r.max < counter;
      SetRepresents(t, Receive(r, counter).0, r.max, counter - s.max - 1);
    }
    hide Represents, Encrypted, BitStruct.Bit, SetBit;
  }

  lemma NothingToRemember()
    ensures Remembers(Initial(0), Reference(0, {}), [], [])
  {
    InitialRepresents();
  }

  lemma {:induction false} RecordingRemembers(counters: seq<int>) returns (r: Reference)
    ensures var (s, vs) := RecordingRun(Initial(0), counters); Remembers(s, r, counters, vs)
  {
    hide Remembers, Recording;
    if counters == [] {
      r := Reference(0, {});
      NothingToRemember();
    } else {
      var before := counters[..|counters| - 1];
      var q := RecordingRemembers(before);
      var (s, vs) := RecordingRun(Initial(0), before);
      RecordingStep(s, q, before, vs, counters[|counters| - 1]);
      r := ReceiveRecording(q, counters[|counters| - 1]).0;
      assert before + [counters[|counters| - 1]] == counters;
    }
  }

  /** With the old maximum recorded, a counter accepted once is a duplicate ever after. */
  lemma RecordingAcceptsOnce(counters: seq<int>, counter: int, i: nat)
    requires i < |counters| && counters[i] == counter && !RecordingRun(Initial(0), counters).1[i].Duplicate?
    ensures Recording(RecordingRun(Initial(0), counters).0, counter).1.Duplicate?
  {
    var r := RecordingRemembers(counters);
    var (s, vs) := RecordingRun(Initial(0), counters);
    RecordingStep(s, r, counters, vs, counter);
    hide RecordingRun, Recording, BitStruct.Bit;
  }
}
