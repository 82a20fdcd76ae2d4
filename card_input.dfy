/**
 * The three input sanitisers of the booking wizard's card form:
 * `formatCardNumber`, `formatExpiry` and the CVV digit filter, and the
 * `slice(-4)` that derives `card_last_four` from the formatted card number.
 *
 * The source first removes whitespace and then every character outside
 * [0-9]; together that keeps exactly the ASCII digits, which is `Digits`.
 */
module CardInput {
  import opened Common

  predicate IsDigit(c: char)
  {
    '0' <= c <= '9'
  }

  predicate AllDigits(s: string)
  {
    forall i :: 0 <= i < |s| ==> IsDigit(s[i])
  }

  /** The digits of `s`, in order. */
  function Digits(s: string): (r: string)
    ensures AllDigits(r)
    ensures |r| <= |s|
  {
    if s == [] then []
    else (if IsDigit(s[0]) then [s[0]] else []) + Digits(s[1..])
  }

  lemma {:induction false} DigitsAppend(a: string, b: string)
    ensures Digits(a + b) == Digits(a) + Digits(b)
  {
    if a == [] {
      assert a + b == b;
    } else {
      assert (a + b)[0] == a[0];
      assert (a + b)[1..] == a[1..] + b;
      DigitsAppend(a[1..], b);
    }
  }

  /** Filtering a string that holds only digits changes nothing. */
  lemma {:induction false} DigitsOfDigits(s: string)
    requires AllDigits(s)
    ensures Digits(s) == s
  {
    if s != [] {
      DigitsOfDigits(s[1..]);
    }
  }

  // ---------------------------------------------------------------------------
  // formatCardNumber

  /**
   * The run that `/\d{4,16}/` finds first in a string of digits: the first
   * sixteen digits (or all of them) when there are at least four, else none.
   */
  function CardRun(value: string): string
  {
    var d := Digits(value);
    if |d| >= 4 then d[..Min(|d|, 16)] else ""
  }

  /** The run split into consecutive 4-character pieces, the last one possibly shorter. */
  function Chunks(m: string): (r: seq<string>)
    ensures m == [] <==> r == []
    decreases |m|
  {
    if m == [] then []
    else if |m| <= 4 then [m]
    else [m[..4]] + Chunks(m[4..])
  }

  /** What `formatCardNumber(value)` returns. */
  function CardText(value: string): string
  {
    var run := CardRun(value);
    if run == [] then value else Join(Chunks(run), " ")
  }

  /** `formatCardNumber`: the `for` loop pushes one 4-character piece per iteration. */
  method FormatCardNumber(value: string) returns (r: string)
    ensures r == CardText(value)
  {
    var v := Digits(value);
    var run := if |v| >= 4 then v[..Min(|v|, 16)] else "";
    var parts: seq<string> := [];
    var i := 0;
    while i < |run|
      invariant 0 <= i
      invariant parts + Chunks(run[Min(i, |run|)..]) == Chunks(run)
    {
      var end := Min(i + 4, |run|);
      assert Chunks(run[i..]) == [run[i..end]] + Chunks(run[end..]) by {
        var tail := run[i..];
        if |tail| > 4 {
          assert end == i + 4;
          assert tail[..4] == run[i..end];
          assert tail[4..] == run[end..];
          assert Chunks(tail) == [tail[..4]] + Chunks(tail[4..]);
        } else {
          assert end == |run|;
          assert tail == run[i..end];
          assert run[end..] == [];
          assert Chunks(tail) == [tail];
        }
      }
      parts := parts + [run[i..end]];
      i := i + 4;
    }
    assert run[Min(i, |run|)..] == [];
    assert parts == Chunks(run);
    assert run == CardRun(value);
    if |parts| > 0 {
      r := Join(parts, " ");
    } else {
      r := value;
    }
  }

  /** Moving one group (five characters) to the right keeps the position within a group. */
  lemma NextGroup(k: int)
    requires k >= 5
    ensures (k - 5) % 5 == k % 5
    ensures (k - 5) / 5 == k / 5 - 1
  {
  }

  /**
   * Layout of a grouped run: a space at every position 4, 9, 14, ... and the
   * run's characters, in order, everywhere else. So every group but the last has
   * exactly four characters and groups are separated by single spaces.
   */
  lemma {:induction false} GroupedLayout(m: string)
    requires m != []
    ensures |Join(Chunks(m), " ")| == |m| + (|m| - 1) / 4
    ensures forall k :: 0 <= k < |Join(Chunks(m), " ")| ==>
              && (k % 5 == 4 ==> Join(Chunks(m), " ")[k] == ' ')
              && (k % 5 != 4 ==> k - k / 5 < |m| && Join(Chunks(m), " ")[k] == m[k - k / 5])
  {
    var r := Join(Chunks(m), " ");
    if |m| <= 4 {
      assert Chunks(m) == [m];
      assert r == m;
      forall k | 0 <= k < |r|
        ensures k % 5 != 4 && k / 5 == 0
      {
      }
    } else {
      var rest := m[4..];
      GroupedLayout(rest);
      GroupedStep(m);
      var r' := Join(Chunks(rest), " ");
      assert (|m| - 1) / 4 == (|rest| - 1) / 4 + 1;
      forall k | 0 <= k < |r|
        ensures k % 5 == 4 ==> r[k] == ' '
        ensures k % 5 != 4 ==> k - k / 5 < |m| && r[k] == m[k - k / 5]
      {
        if k >= 5 {
          LayoutShift(m, r', k);
        } else if k < 4 {
          assert k % 5 == k && k / 5 == 0;
        }
      }
    }
  }

  /** One position of the layout, from the same position five characters earlier in the rest. */
  lemma LayoutShift(m: string, r': string, k: int)
    requires |m| > 4 && 5 <= k < |r'| + 5
    requires (k - 5) % 5 == 4 ==> r'[k - 5] == ' '
    requires (k - 5) % 5 != 4 ==> (k - 5) - (k - 5) / 5 < |m| - 4 && r'[k - 5] == m[4..][(k - 5) - (k - 5) / 5]
    ensures k % 5 == 4 ==> (m[..4] + " " + r')[k] == ' '
    ensures k % 5 != 4 ==> k - k / 5 < |m| && (m[..4] + " " + r')[k] == m[k - k / 5]
  {
    NextGroup(k);
    assert (m[..4] + " " + r')[k] == r'[k - 5];
  }

  lemma {:induction false} DigitsOfGrouped(m: string)
    requires AllDigits(m)
    ensures Digits(Join(Chunks(m), " ")) == m
  {
    if |m| <= 4 {
      DigitsOfDigits(m);
    } else {
      DigitsOfGrouped(m[4..]);
      DigitsOfDigits(m[..4]);
      DigitsAppend(m[..4], " ");
      DigitsAppend(m[..4] + " ", Join(Chunks(m[4..]), " "));
      assert m[..4] + m[4..] == m;
    }
  }

  /**
   * With at least four digits in the input, the result drops every non-digit and
   * groups the first min(n, 16) digits in fours separated by single spaces; it
   * holds at most 19 characters (the input's `maxLength`).
   */
  lemma CardTextGroups(value: string)
    requires |Digits(value)| >= 4
    ensures var d := Digits(value);
            var m := d[..Min(|d|, 16)];
            var r := CardText(value);
            && |r| == |m| + (|m| - 1) / 4
            && |r| <= 19
            && (forall k :: 0 <= k < |r| ==>
                  && (k % 5 == 4 ==> r[k] == ' ')
                  && (k % 5 != 4 ==> k - k / 5 < |m| && r[k] == m[k - k / 5]))
            && Digits(r) == m
  {
    var d := Digits(value);
    var m := d[..Min(|d|, 16)];
    GroupedLayout(m);
    DigitsOfGrouped(m);
  }

  /** With fewer than four digits the raw input is kept, non-digits included. */
  lemma CardTextKeepsShortInput(value: string)
    requires |Digits(value)| < 4
    ensures CardText(value) == value
  {
  }

  /** Re-formatting the formatted value (every keystroke does) changes nothing. */
  lemma CardTextIdempotent(value: string)
    ensures CardText(CardText(value)) == CardText(value)
  {
    var d := Digits(value);
    if |d| >= 4 {
      var m := d[..Min(|d|, 16)];
      CardTextGroups(value);
      assert CardRun(CardText(value)) == m;
    }
  }

  // ---------------------------------------------------------------------------
  // card_last_four

  /** `s.slice(-4)`: the last four characters, or all of a shorter string. */
  function LastFour(s: string): (r: string)
    ensures |r| == Min(|s|, 4)
    ensures r <= s[|s| - |r|..]
  {
    if |s| <= 4 then s else s[|s| - 4..]
  }

  /** Length of the last group when a run of `n` characters is cut into fours. */
  function LastGroupLength(n: nat): (r: nat)
    ensures n > 0 ==> 1 <= r <= 4 && r <= n
  {
    if n <= 4 then n else LastGroupLength(n - 4)
  }

  lemma {:induction false} LastGroupFull(n: nat)
    requires n > 0
    ensures LastGroupLength(n) == 4 <==> n % 4 == 0
  {
    if n > 4 {
      LastGroupFull(n - 4);
    }
  }

  /** Cutting off the first group of a longer run: "dddd" + " " + the rest, grouped. */
  lemma GroupedStep(m: string)
    requires |m| > 4
    ensures Join(Chunks(m), " ") == m[..4] + " " + Join(Chunks(m[4..]), " ")
  {
    var ct := Chunks(m[4..]);
    assert Chunks(m) == [m[..4]] + ct;
    assert ([m[..4]] + ct)[1..] == ct;
  }

  /**
   * The grouped text ends with the last group of the run, and, when there is
   * more than one group, a space stands just before it.
   */
  lemma {:induction false} GroupedSuffix(m: string, l: nat, j: string)
    requires m != [] && l == LastGroupLength(|m|) && j == Join(Chunks(m), " ")
    ensures |j| >= |m|
    ensures j[|j| - l..] == m[|m| - l..]
    ensures |m| > 4 ==> j[|j| - l - 1] == ' '
  {
    if |m| > 4 {
      var t := m[4..];
      var jt := Join(Chunks(t), " ");
      GroupedSuffix(t, l, jt);
      GroupedStep(m);
      assert j[|j| - l..] == jt[|jt| - l..];
      assert m[|m| - l..] == t[|t| - l..];
      if |t| > 4 {
        assert j[|j| - l - 1] == jt[|jt| - l - 1];
      } else {
        assert jt == t;
      }
    }
  }

  /** With sixteen or more digits entered, the stored last four are the last four card digits. */
  lemma LastFourOfFullCard(value: string)
    requires |Digits(value)| >= 16
    ensures LastFour(CardText(value)) == Digits(value)[12..16]
  {
    var d := Digits(value);
    var m := d[..16];
    assert CardRun(value) == m;
    assert LastGroupLength(16) == 4 by {
      LastGroupFull(16);
    }
    GroupedSuffix(m, 4, Join(Chunks(m), " "));
    assert m[12..] == d[12..16];
  }

  /**
   * With 5 to 15 digits, not a multiple of four, the last group is shorter than
   * four and the slice takes the group separator with it: a fifteen-digit card
   * 378282246310005 is shown as "3782 8224 6310 005" and stored as " 005".
   */
  lemma LastFourTakesSeparator(value: string)
    requires 4 < |Digits(value)| < 16 && |Digits(value)| % 4 != 0
    ensures ' ' in LastFour(CardText(value))
    ensures LastFour(CardText(value)) != Digits(value)[|Digits(value)| - 4..]
  {
    var d := Digits(value);
    assert CardRun(value) == d;
    SeparatorInLastGroup(d);
  }

  lemma SeparatorInLastGroup(d: string)
    requires AllDigits(d) && 4 < |d| < 16 && |d| % 4 != 0
    ensures ' ' in LastFour(Join(Chunks(d), " "))
    ensures LastFour(Join(Chunks(d), " ")) != d[|d| - 4..]
  {
    var n := |d|;
    var r := Join(Chunks(d), " ");
    var l := LastGroupLength(n);
    LastGroupFull(n);
    GroupedSuffix(d, l, r);
    var f := r[|r| - 4..];
    assert LastFour(r) == f;
    assert f[3 - l] == r[|r| - l - 1] == ' ';
    assert d[n - 4..][3 - l] == d[n - 1 - l];
    assert IsDigit(d[n - 1 - l]);
  }

  // ---------------------------------------------------------------------------
  // formatExpiry

  /** `formatExpiry(value)`: MM, then `/`, then at most two more digits. */
  function ExpiryText(value: string): string
  {
    var d := Digits(value);
    if |d| >= 2 then d[..2] + "/" + d[2..Min(|d|, 4)] else d
  }

  /**
   * Two digits, a slash and at most two digits once two digits are present
   * (at most five characters); otherwise just the digits, with no slash.
   */
  lemma ExpiryTextShape(value: string)
    ensures var d := Digits(value);
            var r := ExpiryText(value);
            && |r| <= 5
            && (|d| >= 2 ==>
                  && |r| == Min(|d|, 4) + 1
                  && r[2] == '/' && r[..2] == d[..2] && r[3..] == d[2..Min(|d|, 4)])
            && (|d| < 2 ==> r == d && '/' !in r)
  {
  }

  lemma ExpiryTextIdempotent(value: string)
    ensures ExpiryText(ExpiryText(value)) == ExpiryText(value)
  {
    var d := Digits(value);
    if |d| >= 2 {
      var r := ExpiryText(value);
      DigitsAppend(d[..2] + "/", d[2..Min(|d|, 4)]);
      DigitsAppend(d[..2], "/");
      DigitsOfDigits(d[..2]);
      DigitsOfDigits(d[2..Min(|d|, 4)]);
      assert Digits(r) == d[..2] + d[2..Min(|d|, 4)];
      assert d[..2] + d[2..Min(|d|, 4)] == d[..Min(|d|, 4)];
    } else {
      DigitsOfDigits(d);
    }
  }

  // ---------------------------------------------------------------------------
  // CVV: value.replace(/\D/g, '').slice(0, 4)

  function CvvText(value: string): (r: string)
    ensures AllDigits(r)
    ensures |r| <= 4
    ensures r <= Digits(value)
    ensures |r| == Min(|Digits(value)|, 4)
  {
    var d := Digits(value);
    d[..Min(|d|, 4)]
  }

  lemma CvvTextIdempotent(value: string)
    ensures CvvText(CvvText(value)) == CvvText(value)
  {
    DigitsOfDigits(CvvText(value));
  }
}
