/** `MiniCounter.commit`: how the text typed into a counter becomes the value
    handed to its absolute setter. The draft starts as `String(value)`; on
    commit every character other than a decimal digit or `-` is removed,
    the rest goes through `Number(...)`, and a finite result is rounded and
    floored at 0 while an unparsable one gives 0. */
module Draft {
  import opened Options

  /** The characters `/[^\d-]/g` leaves in place. */
  predicate IsKept(c: char)
  {
    ('0' <= c <= '9') || c == '-'
  }

  predicate Sanitised(s: string)
  {
    forall i :: 0 <= i < |s| ==> IsKept(s[i])
  }

  predicate IsDigit(c: char)
  {
    '0' <= c <= '9'
  }

  predicate AllDigits(s: string)
  {
    forall i :: 0 <= i < |s| ==> IsDigit(s[i])
  }

  /** `draft.replace(/[^\d-]/g, "")`: keeps exactly the digits and minus
      signs, in order. */
  function Sanitise(s: string): (r: string)
    ensures Sanitised(r)
    ensures |r| <= |s|
    ensures forall c :: c in r <==> c in s && IsKept(c)
    ensures Sanitised(s) ==> r == s
  {
    if s == [] then []
    else if IsKept(s[0]) then [s[0]] + Sanitise(s[1..])
    else Sanitise(s[1..])
  }

  lemma {:induction false} SanitiseAppend(a: string, b: string)
    ensures Sanitise(a + b) == Sanitise(a) + Sanitise(b)
  {
    if a == [] {
      assert a + b == b;
    } else {
      assert (a + b)[1..] == a[1..] + b;
      SanitiseAppend(a[1..], b);
    }
  }

  /** Value of a string of decimal digits (leading zeros allowed). */
  function DigitsValue(s: string): (n: nat)
    requires AllDigits(s)
  {
    if s == [] then 0 else DigitsValue(s[..|s| - 1]) * 10 + (s[|s| - 1] - '0') as int
  }

  function DigitChar(d: nat): (c: char)
    requires d < 10
    ensures IsDigit(c) && (c - '0') as int == d
  {
    ('0' as int + d) as char
  }

  /** `String(n)` for a non-negative integer. */
  function ShowNat(n: nat): (s: string)
    ensures s != [] && AllDigits(s)
  {
    if n < 10 then [DigitChar(n)] else ShowNat(n / 10) + [DigitChar(n % 10)]
  }

  /** `String(n)` for any integer: a minus sign exactly for a negative
      number, then its digits. */
  function ShowInt(n: int): (s: string)
    ensures s != [] && (s[0] == '-' <==> n < 0)
    ensures n >= 0 ==> AllDigits(s)
  {
    if n < 0 then "-" + ShowNat(-n) else ShowNat(n)
  }

  /** Reading back a printed natural number gives the number. */
  lemma {:induction false} DigitsValueShowNat(n: nat)
    ensures DigitsValue(ShowNat(n)) == n
  {
    if n >= 10 {
      var s := ShowNat(n);
      assert s[..|s| - 1] == ShowNat(n / 10);
      DigitsValueShowNat(n / 10);
    }
  }

  /** `Number(s)` for a sanitised string: the empty string is 0, an optional
      leading minus followed by at least one digit is that integer, and
      anything else (a lone minus, a minus after the first character) is
      NaN, here `None`. */
  function ParseSanitised(s: string): (r: Option<int>)
    requires Sanitised(s)
    ensures r.None? <==> s == "-" || exists i :: 0 < i < |s| && s[i] == '-'
    ensures r.Some? && s != [] && s[0] != '-' ==> r.value >= 0
    ensures r.Some? && s != [] && s[0] == '-' ==> r.value <= 0
  {
    if s == [] then Some(0)
    else if s[0] == '-' then
      (if |s| > 1 && AllDigits(s[1..]) then Some(-(DigitsValue(s[1..]) as int)) else None)
    else if AllDigits(s) then Some(DigitsValue(s))
    else None
  }

  /** Printing an integer and reading it back is the identity. */
  lemma ParseShowInt(n: int)
    ensures Sanitised(ShowInt(n)) && ParseSanitised(ShowInt(n)) == Some(n)
  {
    DigitsValueShowNat(if n < 0 then -n else n);
    if n < 0 {
      assert ShowInt(n)[1..] == ShowNat(-n);
    }
  }

  /** What `commit` hands to the setter once the draft is sanitised: the
      parsed number floored at 0, or 0 when it is NaN. `Math.round` is the
      identity here, since a sanitised string has no decimal point. */
  function FromSanitised(clean: string): (v: nat)
    requires Sanitised(clean)
    ensures v > 0 ==> exists i :: 0 <= i < |clean| && '1' <= clean[i] <= '9'
  {
    match ParseSanitised(clean)
    case Some(n) =>
      if n > 0 then
        (assert exists i :: 0 <= i < |clean| && '1' <= clean[i] <= '9' by {
           var j := NonZeroHasDigit(clean);
         }
         n)
      else 0
    case None => 0
  }

  /** `commit`: the value passed to the setter. A positive value needs a
      non-zero digit somewhere in the draft. */
  function Commit(draft: string): (v: nat)
    ensures v > 0 ==> exists i :: 0 <= i < |draft| && '1' <= draft[i] <= '9'
  {
    var clean := Sanitise(draft);
    var v := FromSanitised(clean);
    assert v > 0 ==> exists i :: 0 <= i < |draft| && '1' <= draft[i] <= '9' by {
      if v > 0 {
        var j :| 0 <= j < |clean| && '1' <= clean[j] <= '9';
        assert clean[j] in clean;
      }
    }
    v
  }

  /** A positive parse needs a non-zero digit somewhere. */
  lemma NonZeroHasDigit(s: string) returns (j: nat)
    requires Sanitised(s) && ParseSanitised(s).Some? && ParseSanitised(s).value > 0
    ensures j < |s| && '1' <= s[j] <= '9'
  {
    if forall i :: 0 <= i < |s| ==> !('1' <= s[i] <= '9') {
      AllZeroDigits(s);
      assert false;
    }
    j :| 0 <= j < |s| && '1' <= s[j] <= '9';
  }

  lemma {:induction false} AllZeroDigits(s: string)
    requires AllDigits(s) || (s != [] && s[0] == '-' && AllDigits(s[1..]))
    requires forall i :: 0 <= i < |s| ==> !('1' <= s[i] <= '9')
    ensures s != [] && s[0] == '-' ==> DigitsValue(s[1..]) == 0
    ensures AllDigits(s) ==> DigitsValue(s) == 0
    decreases |s|
  {
    if s != [] && s[0] == '-' {
      AllZeroDigits(s[1..]);
    } else if s != [] {
      AllZeroDigits(s[..|s| - 1]);
    }
  }

  /** Committing the unedited draft `String(value)` gives `value` back. */
  lemma CommitShown(v: nat)
    ensures Commit(ShowNat(v)) == v
  {
    ParseShowInt(v);
  }

  /** Committing a negative number gives 0. */
  lemma CommitNegative(n: int)
    requires n < 0
    ensures Commit(ShowInt(n)) == 0
  {
    ParseShowInt(n);
  }

  /** Committing any number, typed as `String` would print it, gives it
      floored at 0. */
  lemma CommitShownInt(n: int)
    ensures Commit(ShowInt(n)) == if n > 0 then n else 0
  {
    ParseShowInt(n);
  }

  /** Characters other than digits and minus signs do not matter wherever
      they stand: "1,234" commits as 1234 and "12 kg" as 12. */
  lemma CommitIgnoresNoise(a: string, c: char, b: string)
    requires !IsKept(c)
    ensures Commit(a + [c] + b) == Commit(a + b)
  {
    var noisy := a + [c] + b;
    assert Sanitise([c]) == [] by {
      assert [c][1..] == [];
    }
    SanitiseAppend(a, [c]);
    assert Sanitise(a + [c]) == Sanitise(a);
    SanitiseAppend(a + [c], b);
    SanitiseAppend(a, b);
    assert Sanitise(noisy) == Sanitise(a + b);
  }

  /** A minus sign after the first kept character makes the draft
      unparsable, so it commits as 0. */
  lemma CommitInnerMinus(a: string, b: string)
    requires exists c :: c in a && IsKept(c)
    ensures Commit(a + "-" + b) == 0
  {
    SanitiseAppend(a + "-", b);
    SanitiseAppend(a, "-");
    var clean := Sanitise(a + "-" + b);
    var k := |Sanitise(a)|;
    assert k > 0 by {
      var c :| c in a && IsKept(c);
      assert c in Sanitise(a);
    }
    assert clean[k] == '-';
  }

  /** The three cases the setter sees besides a plain number. */
  lemma CommitEdgeCases()
    ensures Commit("") == 0
    ensures Commit("-") == 0
    ensures Commit("5-3") == 0
  {
    assert Sanitise("5-3") == "5-3";
    assert "5-3"[1] == '-';
  }

  /** A run of `n` zero digits. */
  function Zeros(n: nat): (z: string)
    ensures |z| == n && forall i :: 0 <= i < n ==> z[i] == '0'
  {
    if n == 0 then [] else "0" + Zeros(n - 1)
  }

  /** One leading zero does not change the value of a digit string. */
  lemma {:induction false} LeadingZero(s: string)
    requires AllDigits(s)
    ensures AllDigits("0" + s) && DigitsValue("0" + s) == DigitsValue(s)
    decreases |s|
  {
    if s != [] {
      var t := "0" + s;
      assert t[..|t| - 1] == "0" + s[..|s| - 1];
      LeadingZero(s[..|s| - 1]);
    }
  }

  /** Any number of leading zeros does not change the value. */
  lemma {:induction false} LeadingZeros(z: nat, s: string)
    requires AllDigits(s)
    ensures AllDigits(Zeros(z) + s) && DigitsValue(Zeros(z) + s) == DigitsValue(s)
    decreases z
  {
    if z == 0 {
      assert Zeros(z) + s == s;
    } else {
      LeadingZeros(z - 1, s);
      assert Zeros(z) + s == "0" + (Zeros(z - 1) + s);
      LeadingZero(Zeros(z - 1) + s);
    }
  }

  /** A digit string is a sanitised draft. */
  lemma DigitsSanitised(d: string)
    requires AllDigits(d)
    ensures Sanitised(d) && Sanitised("-" + d)
  {
    var t := "-" + d;
    forall i | 0 <= i < |t|
      ensures IsKept(t[i])
    {
      if i > 0 {
        assert t[i] == d[i - 1];
      }
    }
  }

  /** `String(n)` with zeros in front: digits whose value is still n. */
  lemma ZeroPadded(z: nat, n: nat)
    ensures Zeros(z) + ShowNat(n) != []
    ensures AllDigits(Zeros(z) + ShowNat(n)) && DigitsValue(Zeros(z) + ShowNat(n)) == n
  {
    LeadingZeros(z, ShowNat(n));
    DigitsValueShowNat(n);
  }

  /** Typing digits after the initial draft "0" (or after any zeros) gives
      the number the digits spell: "05" commits as 5, "007" as 7. */
  lemma CommitLeadingZeros(z: nat, n: nat)
    ensures Commit(Zeros(z) + ShowNat(n)) == n
  {
    var t := Zeros(z) + ShowNat(n);
    ZeroPadded(z, n);
    DigitsSanitised(t);
    assert Sanitise(t) == t;
    assert t[0] != '-' by {
      assert IsDigit(t[0]);
    }
    assert ParseSanitised(t) == Some(n);
    assert FromSanitised(t) == n;
  }

  /** A minus sign followed by a non-empty digit string parses as the
      negated value of the digits. */
  lemma ParseMinusDigits(d: string)
    requires d != [] && AllDigits(d)
    ensures Sanitised("-" + d)
    ensures ParseSanitised("-" + d) == Some(-(DigitsValue(d) as int))
  {
    DigitsSanitised(d);
    assert ("-" + d)[1..] == d;
  }

  /** A clean draft with a leading minus sign commits as 0. */
  lemma CommitMinus(d: string)
    requires Sanitised("-" + d)
    ensures Commit("-" + d) == 0
  {
    var t := "-" + d;
    assert Sanitise(t) == t;
    assert FromSanitised(t) == 0;
  }

  /** A minus sign followed by zero-padded digits is a clean draft that
      commits as 0: "-05" commits as 0. By `ParseMinusDigits` and
      `ZeroPadded` it parses as -n. */
  lemma CommitMinusLeadingZeros(z: nat, n: nat)
    ensures Sanitised("-" + (Zeros(z) + ShowNat(n)))
    ensures Commit("-" + (Zeros(z) + ShowNat(n))) == 0
  {
    var d := Zeros(z) + ShowNat(n);
    ZeroPadded(z, n);
    DigitsSanitised(d);
    CommitMinus(d);
  }

  /** The drafts a user is most likely to leave behind. */
  lemma CommitTypedExamples()
    ensures Commit("05") == 5
    ensures Commit("-05") == 0
  {
    CommitLeadingZeros(1, 5);
    assert Zeros(1) + ShowNat(5) == "05";
    CommitMinusLeadingZeros(1, 5);
    assert "-" + (Zeros(1) + ShowNat(5)) == "-05";
  }
}
