/** The year placeholder and the rewrite `preg_replace('/\d{4}/', 'YYYY', $s)` that makes any
    four-digit year read as the placeholder. PCRE's `\d` without the `u` modifier matches the
    ASCII digits only; matches are found left to right and do not overlap. */
module YearPattern {
  import opened Strings

  const YearPlaceholder: string := "YYYY"

  predicate IsDigit(c: char) {
    '0' <= c <= '9'
  }

  /** A match of `\d{4}` starts at position `i` of `s`. */
  predicate DigitRunAt(s: string, i: int) {
    0 <= i && i + 4 <= |s| &&
    IsDigit(s[i]) && IsDigit(s[i + 1]) && IsDigit(s[i + 2]) && IsDigit(s[i + 3])
  }

  predicate HasDigitRun(s: string) {
    exists i :: 0 <= i < |s| && DigitRunAt(s, i)
  }

  /** What PHP's `date('Y')` gives for the years 1000 to 9999. */
  predicate IsYear(y: string) {
    |y| == 4 && DigitRunAt(y, 0)
  }

  /** The text does not end in a digit, so no match of `\d{4}` can run past its end. */
  predicate EndsWithoutDigit(s: string) {
    |s| == 0 || !IsDigit(s[|s| - 1])
  }

  /** Each match of `\d{4}`, found left to right, becomes the placeholder. */
  function NormaliseYear(s: string): (r: string)
    ensures |r| == |s|
    decreases |s|
  {
    if |s| == 0 then []
    else if DigitRunAt(s, 0) then YearPlaceholder + NormaliseYear(s[4..])
    else [s[0]] + NormaliseYear(s[1..])
  }

  /** Only digits change, each into a 'Y'. */
  lemma {:induction false} NormaliseRewritesOnlyDigits(s: string)
    ensures forall i :: 0 <= i < |s| ==> NormaliseYear(s)[i] == s[i] || (IsDigit(s[i]) && NormaliseYear(s)[i] == 'Y')
    decreases |s|
  {
    if |s| > 0 {
      if DigitRunAt(s, 0) {
        NormaliseRewritesOnlyDigits(s[4..]);
      } else {
        NormaliseRewritesOnlyDigits(s[1..]);
      }
    }
  }

  /** After the rewrite no four digits in a row are left. */
  lemma {:induction false} NormaliseLeavesNoDigitRun(s: string)
    ensures !HasDigitRun(NormaliseYear(s))
    decreases |s|
  {
    var r := NormaliseYear(s);
    if |s| > 0 {
      if DigitRunAt(s, 0) {
        var x := NormaliseYear(s[4..]);
        NormaliseLeavesNoDigitRun(s[4..]);
        forall i | 0 <= i < |r| ensures !DigitRunAt(r, i) {
          if i < 4 {
            assert r[i] == 'Y';
          } else {
            assert !DigitRunAt(x, i - 4);
          }
        }
      } else {
        var x := NormaliseYear(s[1..]);
        assert r == [s[0]] + x;
        NormaliseLeavesNoDigitRun(s[1..]);
        NormaliseRewritesOnlyDigits(s[1..]);
        forall i | 0 <= i < |r| ensures !DigitRunAt(r, i) {
          if i == 0 {
            // a digit in the rewritten tail is the digit that stood there before,
            // so a run at the front of r would have been one at the front of s
            assert |x| >= 3 ==> r[1] == x[0] && r[2] == x[1] && r[3] == x[2];
          } else {
            assert !DigitRunAt(x, i - 1);
          }
        }
      }
    }
  }

  /** A text with no four digits in a row is left as it is. */
  lemma {:induction false} NormaliseKeepsDigitRunFree(s: string)
    requires !HasDigitRun(s)
    ensures NormaliseYear(s) == s
    decreases |s|
  {
    if |s| > 0 {
      assert !DigitRunAt(s, 0);
      assert !HasDigitRun(s[1..]) by {
        forall i | 0 <= i < |s| - 1 ensures !DigitRunAt(s[1..], i) {
          assert !DigitRunAt(s, i + 1);
        }
      }
      NormaliseKeepsDigitRunFree(s[1..]);
    }
  }

  /** Rewriting twice is rewriting once. */
  lemma NormaliseIdempotent(s: string)
    ensures NormaliseYear(NormaliseYear(s)) == NormaliseYear(s)
  {
    NormaliseLeavesNoDigitRun(s);
    NormaliseKeepsDigitRunFree(NormaliseYear(s));
  }

  /** Text that does not end in a digit is rewritten on its own, whatever follows it. */
  lemma {:induction false} NormaliseSplits(p: string, t: string)
    requires EndsWithoutDigit(p)
    ensures NormaliseYear(p + t) == NormaliseYear(p) + NormaliseYear(t)
    decreases |p|
  {
    if |p| == 0 {
      assert p + t == t;
    } else if DigitRunAt(p, 0) {
      assert |p| > 4;
      assert DigitRunAt(p + t, 0);
      DropAppend(p, t, 4);
      NormaliseSplits(p[4..], t);
    } else {
      assert (p + t)[|p| - 1] == p[|p| - 1];
      assert !DigitRunAt(p + t, 0);
      DropAppend(p, t, 1);
      NormaliseSplits(p[1..], t);
    }
  }

  /** A year standing after text that does not end in a digit always becomes the
      placeholder, whichever year it is. */
  lemma NormaliseYearSlot(p: string, y: string, q: string)
    requires EndsWithoutDigit(p) && IsYear(y)
    ensures NormaliseYear(p + y + q) == NormaliseYear(p) + YearPlaceholder + NormaliseYear(q)
  {
    Associative(p, y, q);
    NormaliseSplits(p, y + q);
    NormaliseLeadingYear(y, q);
    Associative(NormaliseYear(p), YearPlaceholder, NormaliseYear(q));
  }

  lemma NormaliseLeadingYear(y: string, q: string)
    requires IsYear(y)
    ensures NormaliseYear(y + q) == YearPlaceholder + NormaliseYear(q)
  {
    var s := y + q;
    assert s[0] == y[0] && s[1] == y[1] && s[2] == y[2] && s[3] == y[3];
    assert DigitRunAt(s, 0);
    assert s[4..] == q;
  }
}
