/**
 * The sequence-level meaning of the builder's edits: what the content becomes,
 * independently of how the character array is shifted to get there.
 */
module Text {

  /** `s` with `s[start..end]` replaced by `t`; insert and delete are the cases
      `start == end` and `t == ""`. */
  function Splice(s: string, start: nat, end: nat, t: string): string
    requires start <= end <= |s|
  {
    s[..start] + t + s[end..]
  }

  /** Every character of a splice, with the suffix moved by `|t| - (end - start)`. */
  lemma {:induction false} SpliceAt(s: string, start: nat, end: nat, t: string, i: nat)
    requires start <= end <= |s|
    requires i < |s| - (end - start) + |t|
    ensures |Splice(s, start, end, t)| == |s| - (end - start) + |t|
    ensures Splice(s, start, end, t)[i] ==
      if i < start then s[i]
      else if i < start + |t| then t[i - start]
      else s[i - |t| + (end - start)]
  {
  }

  /** Inserting at the end of the content is appending. */
  lemma {:induction false} InsertAtEndIsAppend(s: string, t: string)
    ensures Splice(s, |s|, |s|, t) == s + t
  {
  }

  /** Deleting a range and inserting the removed text at its start restores the content. */
  lemma {:induction false} DeleteThenInsertRestores(s: string, start: nat, end: nat)
    requires start <= end <= |s|
    ensures start <= |Splice(s, start, end, "")|
    ensures Splice(Splice(s, start, end, ""), start, start, s[start..end]) == s
  {
  }

  /** Replacing a range is deleting it and then inserting the new text at its start. */
  lemma {:induction false} ReplaceIsDeleteThenInsert(s: string, start: nat, end: nat, t: string)
    requires start <= end <= |s|
    ensures start <= |Splice(s, start, end, "")|
    ensures Splice(s, start, end, t) == Splice(Splice(s, start, end, ""), start, start, t)
  {
  }

  /** The reverse of a sequence, by recursion on its first element. */
  function Reversed(s: string): string
  {
    if s == [] then [] else Reversed(s[1..]) + [s[0]]
  }

  /** The k-th character of the reverse is the k-th from the end. */
  lemma {:induction false} ReversedAt(s: string, k: nat)
    requires k < |s|
    ensures |Reversed(s)| == |s| && Reversed(s)[k] == s[|s| - 1 - k]
  {
    ReversedLength(s);
    if k < |s| - 1 {
      ReversedAt(s[1..], k);
    }
  }

  /** Reversing keeps the length. */
  lemma {:induction false} ReversedLength(s: string)
    ensures |Reversed(s)| == |s|
  {
    if s != [] {
      ReversedLength(s[1..]);
    }
  }

  /** Reversing twice gives the content back. */
  lemma {:induction false} ReversedTwice(s: string)
    ensures Reversed(Reversed(s)) == s
  {
    ReversedLength(s);
    ReversedLength(Reversed(s));
    forall k | 0 <= k < |s|
      ensures Reversed(Reversed(s))[k] == s[k]
    {
      ReversedAt(Reversed(s), k);
      ReversedAt(s, |s| - 1 - k);
    }
  }

  /** `pattern` occurs in `text` starting at index `i`. */
  predicate MatchesAt(text: string, pattern: string, i: int)
  {
    0 <= i && i + |pattern| <= |text| && text[i..i + |pattern|] == pattern
  }

  /** One differing character rules out a match at `i`. */
  lemma {:induction false} MismatchRefutes(text: string, pattern: string, i: nat, j: nat)
    requires j < |pattern| && i + |pattern| <= |text|
    requires text[i + j] != pattern[j]
    ensures !MatchesAt(text, pattern, i)
  {
  }

  /** Agreement at every position of the pattern is a match at `i`. */
  lemma {:induction false} AgreementMatches(text: string, pattern: string, i: nat)
    requires i + |pattern| <= |text|
    requires forall j :: 0 <= j < |pattern| ==> text[i + j] == pattern[j]
    ensures MatchesAt(text, pattern, i)
  {
  }

  /** The empty pattern occurs at index 0 of every text. */
  lemma {:induction false} EmptyMatchesAtZero(text: string)
    ensures MatchesAt(text, "", 0)
  {
  }
}
