/**
 * CustomStringBuilder: a growable character buffer whose every edit pushes a
 * snapshot of the whole content onto an undo stack.
 */
module StringBuilder {
  import opened Wrappers
  import opened Text
  import opened History
  import opened Arrays

  /** The capacity of a new builder, and the least capacity undo reallocates to. */
  const DefaultCapacity: nat := 16

  /** A null String argument is treated as the four characters "null". */
  function Normalize(str: Option<string>): (s: string)
    ensures str.Some? ==> s == str.value
    ensures str.None? ==> s == "null"
  {
    match str
    case None => "null"
    case Some(s) => s
  }

  /**
   * The capacity ensureCapacity leaves: unchanged when the minimum already fits,
   * otherwise the larger of double the old capacity and the minimum.
   */
  function GrownCapacity(capacity: nat, minimumCapacity: int): (c: nat)
    ensures capacity <= c && minimumCapacity <= c
    ensures minimumCapacity <= capacity ==> c == capacity
    ensures minimumCapacity > capacity ==> 2 * capacity <= c && (c == 2 * capacity || c == minimumCapacity)
  {
    if minimumCapacity > capacity then Max(capacity * 2, minimumCapacity) else capacity
  }

  /** The start and end that delete and replace refuse: exactly those for which
      `[start, min(end, size))` is not a range of the content. */
  predicate BadRange(start: int, end: int, size: nat): (b: bool)
    ensures !b <==> 0 <= start <= Min(end, size)
  {
    start < 0 || start > size || start > end
  }

  /**
   * The two copies of insert and replace: the suffix `[end, size)` of `before` is
   * moved to `start + |s|`, giving `shifted`, and then `s` is written at `start`,
   * giving `filled`. The first `size - (end - start) + |s|` characters of `filled`
   * are then the splice of the old content.
   */
  lemma {:induction false} ShiftThenFill(before: string, shifted: string, filled: string, size: nat, start: nat, end: nat, s: string)
    requires start <= end <= size <= |before|
    requires size - (end - start) + |s| <= |before|
    requires shifted == Copied(before, start + |s|, before, end, size - end)
    requires filled == Copied(shifted, start, s, 0, |s|)
    ensures size - (end - start) + |s| <= |filled|
    ensures filled[..size - (end - start) + |s|] == Splice(before[..size], start, end, s)
  {
  }

  class CustomStringBuilder {
    /** The character storage; its length is the capacity. */
    var value: array<char>
    /** The number of characters in use, at the front of `value`. */
    var size: nat
    /** One snapshot of the content per edit; the last element is the top. */
    var history: seq<string>

    /** The object invariant: the content fits, the capacity never falls below the
        default, and the top of the history is the current content. */
    ghost predicate Valid()
      reads this, value
    {
      && DefaultCapacity <= value.Length
      && size <= value.Length
      && |history| > 0
      && Top(history) == value[..size]
    }

    /** The content: the first `size` characters of the storage. */
    function ToString(): (s: string)
      reads this, value
      requires size <= value.Length
      ensures |s| == size
    {
      value[..size]
    }

    /** An empty builder with the default capacity. */
    constructor ()
      ensures Valid() && fresh(value)
      ensures ToString() == "" && history == [""]
      ensures value.Length == DefaultCapacity
    {
      value := new char[DefaultCapacity];
      size := 0;
      history := [];
      new;
      SaveState();
    }

    /** A builder holding `str`, with room for at least the default capacity. */
    constructor FromString(str: string)
      ensures Valid() && fresh(value)
      ensures ToString() == str && history == [str]
      ensures value.Length == Max(DefaultCapacity, |str|)
    {
      var storage := new char[Max(DefaultCapacity, |str|)];
      var chars := ToCharArray(str);
      ArrayCopy(chars, 0, storage, 0, |str|);
      value := storage;
      size := |str|;
      history := [];
      new;
      SaveState();
    }

    /** Grows the storage so that it holds at least `minimumCapacity` characters. */
    method EnsureCapacity(minimumCapacity: int)
      requires Valid()
      modifies this
      ensures Valid()
      ensures value.Length == GrownCapacity(old(value.Length), minimumCapacity)
      ensures value == old(value) || fresh(value)
      ensures size == old(size) && history == old(history)
      ensures ToString() == old(ToString())
    {
      if minimumCapacity > value.Length {
        var newCapacity := Max(value.Length * 2, minimumCapacity);
        var newValue := new char[newCapacity];
        ArrayCopy(value, 0, newValue, 0, size);
        assert newValue[..size] == value[..size];
        value := newValue;
      }
    }

    /** Pushes a snapshot of the current content. */
    method SaveState()
      requires size <= value.Length
      modifies this`history
      ensures history == old(history) + [ToString()]
      ensures |history| > 0 && Top(history) == ToString()
    {
      history := history + [ToString()];
    }

    /** Appends `str` (or "null"); never fails. */
    method Append(str: Option<string>)
      requires Valid()
      modifies this, value
      ensures Valid() && (value == old(value) || fresh(value))
      ensures ToString() == old(ToString()) + Normalize(str)
      ensures history == old(history) + [ToString()]
      ensures value.Length == GrownCapacity(old(value.Length), old(size) + |Normalize(str)|)
    {
      var s := Normalize(str);
      var len := |s|;
      EnsureCapacity(size + len);
      var chars := ToCharArray(s);
      ghost var before := value[..];
      ArrayCopy(chars, 0, value, size, len);
      assert value[..size + len] == before[..size] + s;
      size := size + len;
      SaveState();
    }

    /** Appends the single character `c`. */
    method AppendChar(c: char)
      requires Valid()
      modifies this, value
      ensures Valid() && (value == old(value) || fresh(value))
      ensures ToString() == old(ToString()) + [c]
      ensures history == old(history) + [ToString()]
      ensures value.Length == GrownCapacity(old(value.Length), old(size) + 1)
    {
      EnsureCapacity(size + 1);
      value[size] := c;
      size := size + 1;
      SaveState();
    }

    /** Removes `[start, end)`, with `end` clamped to the size. */
    method Delete(start: int, end: int) returns (r: Result<()>)
      requires Valid()
      modifies this`size, this`history, value
      ensures Valid() && value == old(value)
      ensures r.IndexOutOfBounds? <==> BadRange(start, end, old(size))
      ensures r.IndexOutOfBounds? ==>
        value[..] == old(value[..]) && size == old(size) && history == old(history)
      ensures r.Ok? ==>
        && 0 <= start <= Min(end, old(size))
        && ToString() == Splice(old(ToString()), start, Min(end, old(size)), "")
        && history == old(history) + [ToString()]
    {
      if BadRange(start, end, size) {
        return IndexOutOfBounds;
      }
      var e := Min(end, size);
      var len := e - start;
      ghost var content := ToString();
      ghost var before := value[..];
      assert before[..size] == content;
      ArrayCopy(value, e, value, start, size - e);
      ghost var shifted := value[..];
      assert Copied(shifted, start, "", 0, 0) == shifted;
      ShiftThenFill(before, shifted, shifted, size, start, e, "");
      size := size - len;
      assert ToString() == Splice(content, start, e, "");
      SaveState();
      r := Ok(());
    }

    /** Reverses the content in place, then records a snapshot. */
    method Reverse()
      requires Valid()
      modifies this`history, value
      ensures Valid()
      ensures ToString() == Reversed(old(ToString()))
      ensures history == old(history) + [ToString()]
    {
      SwapMirroredPairs();
      SaveState();
    }

    /**
     * The swap loop of reverse: `j` runs from just left of the middle down to 0 and
     * is swapped with its mirror `n - j`, where `n = size - 1`. Sizes 0 and 1 do no
     * swap.
     */
    method SwapMirroredPairs()
      requires size <= value.Length
      modifies value
      ensures value[..size] == Reversed(old(value[..size]))
    {
      var n := size - 1;
      // Java's `(n - 1) >> 1` is a floor division by two, as Dafny's `/` is for a positive divisor.
      var j := (n - 1) / 2;
      while j >= 0
        invariant -1 <= j <= (n - 1) / 2
        invariant forall t :: 0 <= t < value.Length ==>
          value[t] == if j < t < n - j then old(value[n - t]) else old(value[t])
      {
        var k := n - j;
        var cj := value[j];
        var ck := value[k];
        value[j] := ck;
        value[k] := cj;
        j := j - 1;
      }
      ghost var was := old(value[..size]);
      ReversedLength(was);
      forall t | 0 <= t < size
        ensures value[..size][t] == Reversed(was)[t]
      {
        ReversedAt(was, t);
      }
    }

    /**
     * The two copies insert and replace share: the characters `[end, size)` move
     * to `start + |s|` (System.arraycopy within `value`), then `s` is copied in at
     * `start`. Fields other than the contents of `value` are left alone.
     */
    method SpliceStorage(start: nat, end: nat, s: string)
      requires start <= end <= size <= value.Length
      requires size - (end - start) + |s| <= value.Length
      modifies value
      ensures value[..size - (end - start) + |s|] == Splice(old(value[..size]), start, end, s)
    {
      ghost var before := value[..];
      assert before[..size] == old(value[..size]);
      ArrayCopy(value, end, value, start + |s|, size - end);
      ghost var shifted := value[..];
      var chars := ToCharArray(s);
      ArrayCopy(chars, 0, value, start, |s|);
      ShiftThenFill(before, shifted, value[..], size, start, end, s);
    }

    /** Inserts `str` (or "null") before position `offset`. */
    method Insert(offset: int, str: Option<string>) returns (r: Result<()>)
      requires Valid()
      modifies this, value
      ensures Valid() && (value == old(value) || fresh(value))
      ensures r.IndexOutOfBounds? <==> offset < 0 || offset > old(size)
      ensures r.IndexOutOfBounds? ==>
        value == old(value) && value[..] == old(value[..]) && size == old(size) && history == old(history)
      ensures r.Ok? ==>
        && 0 <= offset <= old(size)
        && ToString() == Splice(old(ToString()), offset, offset, Normalize(str))
        && history == old(history) + [ToString()]
        && value.Length == GrownCapacity(old(value.Length), old(size) + |Normalize(str)|)
    {
      if offset < 0 || offset > size {
        return IndexOutOfBounds;
      }
      var s := Normalize(str);
      var len := |s|;
      EnsureCapacity(size + len);
      SpliceStorage(offset, offset, s);
      size := size + len;
      SaveState();
      r := Ok(());
    }

    /** Replaces `[start, end)`, with `end` clamped to the size, by `str` (or "null"). */
    method Replace(start: int, end: int, str: Option<string>) returns (r: Result<()>)
      requires Valid()
      modifies this, value
      ensures Valid() && (value == old(value) || fresh(value))
      ensures r.IndexOutOfBounds? <==> BadRange(start, end, old(size))
      ensures r.IndexOutOfBounds? ==>
        value == old(value) && value[..] == old(value[..]) && size == old(size) && history == old(history)
      ensures r.Ok? ==>
        && 0 <= start <= Min(end, old(size))
        && ToString() == Splice(old(ToString()), start, Min(end, old(size)), Normalize(str))
        && size == old(size) - (Min(end, old(size)) - start) + |Normalize(str)|
        && history == old(history) + [ToString()]
        && value.Length == GrownCapacity(old(value.Length), size)
    {
      if BadRange(start, end, size) {
        return IndexOutOfBounds;
      }
      var s := Normalize(str);
      var e := Min(end, size);
      var len := |s|;
      var newSize := size - (e - start) + len;
      EnsureCapacity(newSize);
      SpliceStorage(start, e, s);
      size := newSize;
      SaveState();
      r := Ok(());
    }

    /** Drops the top snapshot and rebuilds the storage from the one beneath it;
        fails when only the initial snapshot is left. */
    method Undo() returns (undone: bool)
      requires Valid()
      modifies this
      ensures Valid()
      ensures (history, undone) == UndoStep(old(history))
      ensures undone ==> ToString() == Top(history) && fresh(value)
      ensures undone ==> value.Length == Max(DefaultCapacity, size)
      ensures !undone ==> value == old(value) && size == old(size)
    {
      if |history| <= 1 {
        return false;
      }
      history := history[..|history| - 1];
      var previousState := Top(history);
      var storage := new char[Max(DefaultCapacity, |previousState|)];
      var chars := ToCharArray(previousState);
      ArrayCopy(chars, 0, storage, 0, |previousState|);
      value := storage;
      size := |previousState|;
      assert value[..size] == previousState;
      undone := true;
    }

    /** The number of characters in use. */
    function Length(): (n: int)
      reads this, value
      requires Valid()
      ensures n == |ToString()|
    {
      size
    }

    /** The character at `index`, or IndexOutOfBounds outside `[0, size)`. */
    function CharAt(index: int): (r: Result<char>)
      reads this, value
      requires Valid()
      ensures r.Ok? <==> 0 <= index < |ToString()|
      ensures r.Ok? ==> r.value == ToString()[index]
    {
      if index < 0 || index >= size then IndexOutOfBounds else Ok(value[index])
    }

    /** The least index at which `str` (or "null") occurs in the content, or -1. */
    method IndexOf(str: Option<string>) returns (r: int)
      requires Valid()
      ensures -1 <= r
      ensures r == -1 <==> forall i :: 0 <= i <= |ToString()| ==> !MatchesAt(ToString(), Normalize(str), i)
      ensures r >= 0 ==> MatchesAt(ToString(), Normalize(str), r)
      ensures forall i :: 0 <= i < r ==> !MatchesAt(ToString(), Normalize(str), i)
      ensures Normalize(str) == "" ==> r == 0
    {
      var target := ToCharArray(Normalize(str));
      ghost var text := ToString();
      ghost var pattern := Normalize(str);
      // An empty pattern matches at 0, so the first-match clauses force `r == 0`.
      EmptyMatchesAtZero(text);
      var i := 0;
      while i <= size - target.Length
        invariant 0 <= i
        invariant target[..] == pattern
        invariant forall i' :: 0 <= i' < i ==> !MatchesAt(text, pattern, i')
      {
        var found := true;
        var j := 0;
        while j < target.Length
          invariant 0 <= j <= target.Length
          invariant found && target[..] == pattern
          invariant forall j' :: 0 <= j' < j ==> text[i + j'] == pattern[j']
        {
          // The scan never looks at or past the logical end of the content.
          assert i + j < size;
          assert text[i + j] == value[i + j] && pattern[j] == target[j];
          if value[i + j] != target[j] {
            MismatchRefutes(text, pattern, i, j);
            found := false;
            break;
          }
          j := j + 1;
        }
        if found {
          AgreementMatches(text, pattern, i);
          assert MatchesAt(ToString(), Normalize(str), i);
          return i;
        }
        i := i + 1;
      }
      r := -1;
    }
  }
}
