/**
 * The undo history as a stack of snapshots: a sequence whose last element is the top.
 */
module History {

  /** The most recent snapshot. */
  function Top(h: seq<string>): string
    requires |h| > 0
  {
    h[|h| - 1]
  }

  /** One undo on history `h`: the history left, and whether anything was undone.
      The oldest snapshot is never popped. */
  function UndoStep(h: seq<string>): (r: (seq<string>, bool))
    ensures r.1 <==> |h| > 1
    ensures r.1 ==> r.0 + [h[|h| - 1]] == h
    ensures !r.1 ==> r.0 == h
  {
    if |h| <= 1 then (h, false) else (h[..|h| - 1], true)
  }

  /** `n` copies of `b`. */
  function Repeat(b: bool, n: nat): (r: seq<bool>)
    ensures |r| == n && forall i :: 0 <= i < n ==> r[i] == b
  {
    if n == 0 then [] else [b] + Repeat(b, n - 1)
  }

  /** `n` undos in a row: the history left, and the result of each call in order. */
  function UndoTimes(h: seq<string>, n: nat): (r: (seq<string>, seq<bool>))
    ensures |r.1| == n
  {
    if n == 0 then (h, [])
    else
      var step := UndoStep(h);
      var rest := UndoTimes(step.0, n - 1);
      (rest.0, [step.1] + rest.1)
  }

  /** `n` undos in a row leave a prefix of the history: `n` snapshots fewer, but
      never fewer than the initial one. */
  lemma {:induction false} UndoTimesHistory(h: seq<string>, n: nat)
    requires |h| > 0
    ensures UndoTimes(h, n).0 <= h
    ensures |UndoTimes(h, n).0| == if n < |h| then |h| - n else 1
  {
    if n > 0 {
      UndoTimesHistory(UndoStep(h).0, n - 1);
    }
  }

  /** Of `n` undos in a row, exactly the first `|h| - 1` succeed: one per snapshot
      above the initial one. */
  lemma {:induction false} UndoTimesResults(h: seq<string>, n: nat, i: nat)
    requires i < n
    ensures |UndoTimes(h, n).1| == n
    ensures UndoTimes(h, n).1[i] <==> i < |h| - 1
  {
    if i > 0 {
      UndoTimesResults(UndoStep(h).0, n - 1, i - 1);
    }
  }

  /** After `|pushed|` snapshots were pushed onto `base`, the first `|pushed|` undos
      each succeed and uncover `base` again; further undos act as they would on `base`. */
  lemma {:induction false} UndoAfterPushes(base: seq<string>, pushed: seq<string>, more: nat)
    requires |base| > 0
    ensures UndoTimes(base + pushed, |pushed| + more).0 == UndoTimes(base, more).0
    ensures UndoTimes(base + pushed, |pushed| + more).1 == Repeat(true, |pushed|) + UndoTimes(base, more).1
  {
    if pushed == [] {
      assert base + pushed == base;
    } else {
      var last := |pushed| - 1;
      assert (base + pushed)[..|base + pushed| - 1] == base + pushed[..last];
      assert UndoStep(base + pushed) == (base + pushed[..last], true);
      UndoAfterPushes(base, pushed[..last], more);
      var tail := UndoTimes(base, more).1;
      assert Repeat(true, |pushed|) + tail == [true] + (Repeat(true, last) + tail);
    }
  }

  /** On a history holding only the initial snapshot, every undo fails and changes nothing. */
  lemma {:induction false} UndoAtInitial(h: seq<string>, n: nat)
    requires |h| == 1
    ensures UndoTimes(h, n) == (h, Repeat(false, n))
  {
    if n > 0 {
      UndoAtInitial(h, n - 1);
    }
  }

  /** From a fresh builder (one initial snapshot) and `N` recorded mutations, `N` undos
      succeed and leave only the initial snapshot, whose top is the constructed
      content, and the `N + 1`-st fails. */
  lemma {:induction false} UndoAllThenStop(initial: string, pushed: seq<string>)
    ensures UndoTimes([initial] + pushed, |pushed|).0 == [initial]
    ensures UndoTimes([initial] + pushed, |pushed| + 1).0 == [initial]
    ensures UndoTimes([initial] + pushed, |pushed| + 1).1 == Repeat(true, |pushed|) + [false]
  {
    var n := |pushed|;
    UndoAfterPushes([initial], pushed, 0);
    UndoAtInitial([initial], 0);
    assert UndoTimes([initial] + pushed, n + 0) == UndoTimes([initial] + pushed, n);
    UndoAfterPushes([initial], pushed, 1);
    UndoAtInitial([initial], 1);
    assert Repeat(false, 1) == [false];
  }
}
