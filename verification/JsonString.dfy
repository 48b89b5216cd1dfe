// The two passes over a string literal: when both stay in the text, and when the
// string that the second makes fits the length that the first counts.
module JsonString {
  import opened JsonText
  import opened JsonParser

  // What one character or escape gives.
  function Taken(t: string): string
    requires !AtEnd(t)
  {
    if t[0] != '\\' then [t[0]] else Unescape(t[1..]).0
  }

  lemma DropDrop(t: string, a: nat, b: nat)
    ensures Drop(Drop(t, a), b) == Drop(t, a + b)
  {
  }

  // Behind the u there are four digits, or the six characters of another escape.
  lemma UnicodeStep(t: string)
    requires C(t) == '\\' && C(Drop(t, 1)) == 'u'
    ensures var r := Unicode(Drop(t, 2)); r.1 == Drop(t, Step(t)) && 2 * |r.0| <= Step(t) + 1
  {
    var t2 := Drop(t, 2);
    DropDrop(t, 2, 4);
    DropDrop(t, 6, 6);
    if Step(t) == 6 { assert Unicode(t2).1 == Drop(t2, 4) && |Unicode(t2).0| <= 3; }
  }

  lemma UnescapeStep(t: string)
    requires C(t) == '\\'
    ensures var r := Unescape(t[1..]); r.1 == Drop(t, Step(t)) && 2 * |r.0| <= Step(t) + 1
  {
    DropDrop(t, 1, 1);
    if C(t[1..]) == 'u' { UnicodeStep(t); }
  }

  lemma TakenShort(t: string)
    requires !AtEnd(t)
    ensures 2 * |Taken(t)| <= Step(t) + 1
  {
    if t[0] == '\\' { UnescapeStep(t); }
  }

  lemma CharsStep(t: string)
    requires !AtEnd(t)
    ensures var more := Chars(Drop(t, Step(t))); Chars(t) == (Taken(t) + more.0, more.1)
  {
    if t[0] == '\\' { UnescapeStep(t); }
  }

  // --------------------------------------------------------------- how far they get

  // The second pass takes no escape that the character at k is part of.
  predicate Clear(t: string, k: nat)
    requires k <= |t|
    decreases k
  {
    AtEnd(t) || k == 0 || (Step(t) <= k && Clear(t[Step(t)..], k - Step(t)))
  }

  // So it gets no further than a quote at k, or the end of the text.
  lemma {:induction false} ClearReach(t: string, k: nat)
    requires k <= |t| && AtEnd(t[k..])
    ensures Clear(t, k) <==> Reach(t) <= k
    decreases k
  {
    if !AtEnd(t) && k > 0 && Step(t) <= k {
      assert t[Step(t)..][k - Step(t)..] == t[k..];
      ClearReach(t[Step(t)..], k - Step(t));
    }
  }

  // ------------------------------------------------------------------ what fits

  // The first pass stands k characters on, or one further, behind an escape.
  function Over(t: string, k: nat): (d: nat)
    requires k <= |t|
    ensures d <= 1
    decreases k
  {
    if k == 0 then 0 else if t[0] != '\\' then Over(t[1..], k - 1) else if k == 1 then 1 else Over(t[2..], k - 2)
  }

  // It counts at least one for every two characters.
  lemma {:induction false} PassOver(t: string, k: nat)
    requires k <= CountReach(t) <= |t|
    ensures var e := k + Over(t, k);
            && e <= |t| && CountReach(t) == e + CountReach(t[e..]) && 2 * (Counted(t) - Counted(t[e..])) >= e
    decreases k
  {
    if k == 0 {
      assert t[0..] == t;
    } else if t[0] != '\\' {
      PassOver(t[1..], k - 1);
      assert t[1..][k - 1 + Over(t, k)..] == t[k + Over(t, k)..];
    } else if k > 1 {
      PassOver(t[2..], k - 2);
      assert t[2..][k - 2 + Over(t, k)..] == t[k + Over(t, k)..];
    }
  }

  // The first pass may be one character ahead of the second.
  predicate Within(t: string, d: nat) { d <= 1 && d <= |t| && Reach(t) <= d + CountReach(t[d..]) <= |t| }

  lemma OutputFits(out: nat, k: nat, d: nat, d': nat, count: int)
    requires 2 * out <= k + 1 && 2 * count >= k - d + d' && d <= 1 && d' <= 1
    requires if k == 1 then d' == 0 else k % 2 == 0
    ensures out + d' <= d + count
  {
  }

  // It never is further ahead, as long as the second does not overtake it, and has
  // counted enough for what an escape of k characters may give.
  lemma PassStep(u: string, d: nat, k: nat, out: nat, reach: nat) returns (d': nat)
    requires d <= 1 && d <= k && k + reach <= d + CountReach(u) && CountReach(u) <= |u| && 2 * out <= k + 1
    requires if k == 1 then d == 1 || C(u) != '\\' else k % 2 == 0
    ensures d' <= 1 && k - d + d' <= |u| && reach <= d' + CountReach(u[k - d + d'..]) <= |u| - (k - d)
    ensures out + d' + Counted(u[k - d + d'..]) <= d + Counted(u)
  {
    d' := Over(u, k - d);
    PassOver(u, k - d);
    OutputFits(out, k, d, d', Counted(u) - Counted(u[k - d + d'..]));
  }

  lemma ReachStep(t: string)
    requires !AtEnd(t)
    ensures Reach(t) == Step(t) + Reach(Drop(t, Step(t))) && (Step(t) == 1 ==> C(t) != '\\')
  {
  }

  lemma WithinStep(t: string, d: nat, out: nat) returns (d': nat)
    requires Within(t, d) && !AtEnd(t) && 2 * out <= Step(t) + 1
    ensures Step(t) <= |t| && Within(t[Step(t)..], d')
    ensures out + d' + Counted(t[Step(t)..][d'..]) <= d + Counted(t[d..])
  {
    ReachStep(t);
    var k, u := Step(t), t[d..];
    assert d == 0 ==> u == t;
    d' := PassStep(u, d, k, out, Reach(Drop(t, k)));
    assert t[k..][d'..] == u[k - d + d'..];
  }

  lemma CharsLength(t: string)
    requires !AtEnd(t) && Step(t) <= |t|
    ensures |Chars(t).0| == |Taken(t)| + |Chars(t[Step(t)..]).0|
  {
    CharsStep(t);
  }

  // So the string fits.
  lemma {:induction false} FitsAhead(t: string, d: nat)
    requires Within(t, d)
    ensures |Chars(t).0| <= d + Counted(t[d..])
    decreases |t|
  {
    if !AtEnd(t) {
      TakenShort(t);
      var d' := WithinStep(t, d, |Taken(t)|);
      FitsAhead(t[Step(t)..], d');
      CharsLength(t);
    }
  }

  lemma StaysSound(t: string)
    requires Reach(t) <= CountReach(t) <= |t|
    ensures Sound(t)
  {
    assert t[0..] == t;
    FitsAhead(t, 0);
  }

  // ------------------------------------------------------- when it does not fit

  predicate AllA(t: string) { forall i :: 0 <= i < |t| ==> t[i] == 'A' }

  lemma {:induction false} CharsOfAs(t: string)
    requires AllA(t)
    ensures Chars(t).0 == t
  {
    if t != [] { CharsOfAs(t[1..]); }
  }

  // A pass that steps over the quote at k takes whatever stands behind it.
  lemma {:induction false} Overruns(t: string, k: nat)
    requires k + 12 <= |t| && !Clear(t, k) && AllA(t[k + 1..])
    ensures |Chars(t).0| >= |t| - k - 12
    decreases k
  {
    CharsStep(t);
    var s := Step(t);
    if s <= k {
      assert t[s..][k - s + 1..] == t[k + 1..];
      Overruns(t[s..], k - s);
    } else {
      assert t[s..] == t[k + 1..][s - k - 1..];
      CharsOfAs(t[s..]);
    }
  }

  lemma StepSame(t: string, t': string, k: nat)
    requires 0 < k < |t| && k < |t'| && t[..k + 1] == t'[..k + 1] && t[k] == '\"'
    ensures C(t) == C(t') && Step(t) == Step(t')
  {
    assert forall i :: 0 <= i <= k ==> t[..k + 1][i] == t[i] && t'[..k + 1][i] == t'[i];
  }

  lemma {:induction false} ClearSame(t: string, t': string, k: nat)
    requires k < |t| && k < |t'| && t[..k + 1] == t'[..k + 1] && t[k] == '\"'
    ensures Clear(t, k) <==> Clear(t', k)
    decreases k
  {
    if k > 0 {
      StepSame(t, t', k);
      var s := Step(t);
      if s <= k {
        assert t[s..][..k - s + 1] == t[..k + 1][s..] == t'[..k + 1][s..] == t'[s..][..k - s + 1];
        ClearSame(t[s..], t'[s..], k - s);
      }
    }
  }

  // What the first pass does depends on what is before its quote.
  lemma {:induction false} CountSame(t: string, t': string, k: nat)
    requires k < |t| && k < |t'| && t[..k + 1] == t'[..k + 1] && t[k] == '\"' && CountReach(t) == k
    ensures CountReach(t') == k && Counted(t') == Counted(t)
    decreases k
  {
    assert t[..k + 1][0] == t[0] == t'[..k + 1][0] == t'[0];
    if k > 0 {
      var s := CountStep(t);
      assert t[s..][..k - s + 1] == t[..k + 1][s..] == t'[..k + 1][s..] == t'[s..][..k - s + 1];
      CountSame(t[s..], t'[s..], k - s);
    }
  }

  ghost function As(n: nat): string { seq(n, _ => 'A') }

  // A literal whose first pass ends at the quote behind `body` is read safely,
  // whatever text follows, just when no escape of the second pass reaches over that
  // quote.
  lemma SafeExactly(body: string)
    requires CountReach(body + "\"") == |body|
    ensures Clear(body + "\"", |body|) <==> forall r: string :: Sound(body + "\"" + r)
  {
    var k, t := |body|, body + "\"";
    forall r: string
      ensures CountReach(t + r) == k && Counted(t + r) == Counted(t) && (Clear(t + r, k) <==> Clear(t, k))
      ensures Clear(t, k) ==> Sound(t + r)
    {
      assert (t + r)[..k + 1] == t == t[..k + 1];
      CountSame(t, t + r, k);
      ClearSame(t, t + r, k);
      ClearReach(t + r, k);
      if Clear(t, k) { StaysSound(t + r); }
    }
    if !Clear(t, k) {
      var r := As(Counted(t) + 13);
      assert (t + r)[k + 1..] == r;
      Overruns(t + r, k);
      assert !Sound(t + r);
    }
  }

  // A literal without that quote is read safely just when its last escape is
  // complete for either pass.
  lemma SafeUnclosed(t: string)
    requires CountReach(t) >= |t|
    ensures Sound(t) <==> CountReach(t) == |t| && Clear(t, |t|)
  {
    ClearReach(t, |t|);
    if CountReach(t) == |t| && Clear(t, |t|) { StaysSound(t); }
  }

  // ------------------------------------------------------------ complete escapes

  predicate FourDigits(t: string) { |t| >= 4 && forall i :: 0 <= i < 4 ==> HexValue(t[i]) >= 0 }

  // Every backslash has its character, and every u its four digits.
  predicate EscapesOk(t: string)
    decreases |t|
  {
    if AtEnd(t) then true
    else if t[0] != '\\' then EscapesOk(t[1..])
    else C(Drop(t, 1)) != '\0' && if t[1] == 'u' then FourDigits(t[2..]) && EscapesOk(t[6..]) else EscapesOk(t[2..])
  }

  lemma {:induction false} CountDigits(t: string, k: nat)
    requires k <= |t| && forall i :: 0 <= i < k ==> HexValue(t[i]) >= 0
    ensures CountReach(t) == k + CountReach(t[k..])
  {
    if k == 0 {
      assert t[k..] == t;
    } else {
      CountDigits(t[1..], k - 1);
      assert t[1..][k - 1..] == t[k..];
    }
  }

  lemma CountUnicode(t: string)
    requires |t| >= 6 && t[0] == '\\' && t[1] == 'u' && FourDigits(t[2..])
    ensures CountReach(t) == 6 + CountReach(t[6..])
  {
    CountDigits(t[2..], 4);
    assert t[2..][4..] == t[6..];
  }

  lemma EscapesStep(t: string)
    requires EscapesOk(t) && !AtEnd(t)
    ensures var k := Step(t); k <= |t| && EscapesOk(t[k..]) && CountReach(t) == k + CountReach(t[k..])
  {
    if t[0] == '\\' && t[1] == 'u' {
      CountUnicode(t);
      if Step(t) == 12 {
        CountUnicode(t[6..]);
        assert t[6..][6..] == t[12..];
      }
    }
  }

  // Then both passes stop at the same place.
  lemma {:induction false} CompletePasses(t: string)
    requires EscapesOk(t)
    ensures Reach(t) == CountReach(t) <= |t|
    decreases |t|
  {
    if !AtEnd(t) {
      EscapesStep(t);
      CompletePasses(t[Step(t)..]);
    }
  }

  lemma UnescapedFits(t: string)
    requires EscapesOk(t)
    ensures Sound(t)
  {
    CompletePasses(t);
    StaysSound(t);
  }

  // Digits may be missing all the same: the second pass takes the two characters of
  // an escape for digits, and stops at the quote where the first did.
  lemma IncompleteFits()
    ensures var body := "\\u\\\"xy"; !EscapesOk(body + "\"") && forall r: string :: Sound(body + "\"" + r)
  {
    var body := "\\u\\\"xy";
    var t := body + "\"";
    assert t[1] == 'u' && t[2..] == "\\\"xy\"" && t[6..] == "\"";
    assert Drop(t, 2) == t[2..] && HexValue(t[2..][0]) < 0 && ParseHex4(t[2..]) == 0;
    assert t[2..][2..] == "xy\"" && "xy\""[1..] == "y\"" && "y\""[1..] == "\"";
    assert CountReach("\"") == 0 && CountReach("y\"") == 1 && CountReach("xy\"") == 2;
    assert CountReach(t[2..]) == 4 by { assert Drop(t[2..], 2) == "xy\""; }
    SafeExactly(body);
  }

  // But a quote that the first pass stops at may be jumped over as a digit...
  lemma TruncatedOverflows()
    ensures var t := "\\u\"...AB\""; Counted(t) == 1 && Chars(t).0 == "AB" && Reach(t) <= |t|
  {
    var t := "\\u\"...AB\"";
    var quoted := "\"...AB\"";
    assert t[1..] == "u" + quoted && Drop(t[1..], 1) == quoted == Drop(t, 2) == t[2..];
    assert Counted(quoted) == 0;
    assert HexValue(quoted[0]) < 0 && ParseHex4(quoted) == 0 && Drop(quoted, 4) == "AB\"" == Drop(t, 6);
    assert Unescape(t[1..]) == ("", "AB\"");
    assert "AB\""[1..] == "B\"" && "B\""[1..] == "\"";
    assert Chars("\"").0 == "" && Chars("B\"").0 == "B" && Chars("AB\"").0 == "AB";
    assert Reach("\"") == 0 && Reach("B\"") == 1 && Reach("AB\"") == 2;
  }

  // ...or as an escaped one, behind digits that end in a backslash.
  lemma MisreadOverflows()
    ensures var body := "\\uabc\\\\"; CountReach(body + "\"") == |body| && exists r: string :: !Sound(body + "\"" + r)
  {
    var body, digits, tail := "\\uabc\\\\", "abc\\\\\"", "\\\"";
    var t := body + "\"";
    assert Drop(t, 2) == digits;
    CountDigits(digits, 3);
    assert digits[3..] == "\\\\\"" && Drop("\\\\\"", 2) == "\"" && CountReach("\"") == 0;
    assert t[6..] == tail && Step(t) == 6 by {
      assert HexValue(C(Drop(digits, 3))) < 0 && ParseHex4(digits) == 0;
    }
    assert !Clear(tail, 1) by { assert C(Drop(tail, 1)) == '\"' && Step(tail) == 2; }
    assert !Clear(t, 7);
    SafeExactly(body);
  }
}
