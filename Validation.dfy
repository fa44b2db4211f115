/** The few Laravel validation rules that the controllers rely on, on string values. */
module Validation {

  /** The characters PHP's `trim` removes: space, tab, line feed, carriage return, NUL and vertical tab. */
  predicate IsTrimmed(c: char) {
    c == ' ' || c == '\t' || c == '\n' || c == '\r' || c == '\0' || c == '\U{000B}'
  }

  /** Laravel's `required` on a string: something other than trimmed whitespace. */
  predicate Filled(s: string)
    ensures Filled(s) ==> |s| > 0
  {
    exists i :: 0 <= i < |s| && !IsTrimmed(s[i])
  }

  /** PHP's `ltrim` with the default character list. */
  function TrimLeft(s: string): (r: string)
    ensures r == [] || !IsTrimmed(r[0])
    ensures |r| <= |s| && r == s[|s| - |r|..]
    ensures forall i :: 0 <= i < |s| - |r| ==> IsTrimmed(s[i])
  {
    if s != [] && IsTrimmed(s[0]) then TrimLeft(s[1..]) else s
  }

  /** PHP's `rtrim` with the default character list. */
  function TrimRight(s: string): (r: string)
    ensures r == [] || !IsTrimmed(r[|r| - 1])
    ensures |r| <= |s| && r == s[..|r|]
    ensures forall i :: |r| <= i < |s| ==> IsTrimmed(s[i])
  {
    if s != [] && IsTrimmed(s[|s| - 1]) then TrimRight(s[..|s| - 1]) else s
  }

  /** `r` is the piece of `s` starting at `a`, and everything around it is whitespace. */
  predicate TrimmedPiece(s: string, a: nat, r: string) {
    && a + |r| <= |s| && r == s[a..a + |r|]
    && (forall i :: 0 <= i < a ==> IsTrimmed(s[i]))
    && (forall i :: a + |r| <= i < |s| ==> IsTrimmed(s[i]))
  }

  /**
   * PHP's `trim`: a piece of the value with only whitespace around it, which begins and ends
   * with a character that is not whitespace.
   */
  function Trim(s: string): (r: string)
    ensures r == [] || (!IsTrimmed(r[0]) && !IsTrimmed(r[|r| - 1]))
    ensures exists a :: TrimmedPiece(s, a, r)
  {
    TrimIsPiece(s);
    TrimRight(TrimLeft(s))
  }

  /** The trim of `s` is the piece starting after the leading whitespace. */
  lemma TrimIsPiece(s: string)
    ensures TrimmedPiece(s, |s| - |TrimLeft(s)|, TrimRight(TrimLeft(s)))
  {
    var left := TrimLeft(s);
    var a := |s| - |left|;
    var r := TrimRight(left);
    assert left == s[a..];
    assert r == left[..|r|];
    assert r == s[a..a + |r|];
    forall i | a + |r| <= i < |s| ensures IsTrimmed(s[i]) {
      assert s[i] == left[i - a];
    }
  }

  /** Dropping a leading whitespace character does not change whether a value is filled. */
  lemma FilledTail(s: string)
    requires s != [] && IsTrimmed(s[0])
    ensures Filled(s) <==> Filled(s[1..])
  {
    if Filled(s) {
      var i :| 0 <= i < |s| && !IsTrimmed(s[i]);
      assert s[1..][i - 1] == s[i];
    }
    if Filled(s[1..]) {
      var i :| 0 <= i < |s[1..]| && !IsTrimmed(s[1..][i]);
      assert s[i + 1] == s[1..][i];
    }
  }

  lemma {:induction false} TrimLeftEmpty(s: string)
    ensures TrimLeft(s) == [] <==> !Filled(s)
  {
    if s != [] && IsTrimmed(s[0]) {
      TrimLeftEmpty(s[1..]);
      FilledTail(s);
    } else if s != [] {
      assert !IsTrimmed(s[0]);
    }
  }

  lemma {:induction false} TrimRightKeepsHead(s: string)
    requires s != [] && !IsTrimmed(s[0])
    ensures TrimRight(s) != []
  {
    if IsTrimmed(s[|s| - 1]) {
      assert |s| > 1;
      TrimRightKeepsHead(s[..|s| - 1]);
    }
  }

  /** `required` is the check PHP's `trim($value) === ''` fails: filled exactly when the trim is non-empty. */
  lemma FilledIffTrimNonEmpty(s: string)
    ensures Filled(s) <==> Trim(s) != []
  {
    TrimLeftEmpty(s);
    if TrimLeft(s) != [] {
      TrimRightKeepsHead(TrimLeft(s));
    }
  }

  predicate AllDigits(s: string) {
    forall i :: 0 <= i < |s| ==> '0' <= s[i] <= '9'
  }

  /**
   * `nullable|digits_between:lo,hi`: a blank value skips the rule (it is not an implicit rule);
   * otherwise only the digits 0-9, between `lo` and `hi` of them.
   */
  predicate DigitsBetweenIfFilled(s: string, lo: nat, hi: nat)
    ensures !Filled(s) ==> DigitsBetweenIfFilled(s, lo, hi)
  {
    Filled(s) ==> AllDigits(s) && lo <= |s| <= hi
  }

  /**
   * The `phone` rule of a user update, `nullable|digits_between:1,20`: a value that trims to
   * nothing passes, anything else must be 1 to 20 of the digits 0-9.
   */
  lemma PhoneRule(s: string)
    ensures DigitsBetweenIfFilled(s, 1, 20) <==> Trim(s) == [] || (AllDigits(s) && 1 <= |s| <= 20)
  {
    FilledIffTrimNonEmpty(s);
  }
}
