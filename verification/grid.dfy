/** `gridColumns` of models/view.go: the CSS grid template for one centre,
    a fixed 50px label column followed by one proportional column per lane
    of every day. */
module Grid {
  import opened Decimal
  import opened Arith

  /** `fmt.Sprintf("%dfr", w)`. */
  function Fr(w: nat): string {
    NatToString(w) + "fr"
  }

  /** `strings.Repeat(s, n)`. */
  function Repeat(s: string, n: nat): string {
    if n == 0 then "" else s + Repeat(s, n - 1)
  }

  /** Removes trailing blanks; the template holds no other white space, so
      this is what `strings.TrimSpace` does to it. */
  function TrimTrailingBlanks(s: string): (r: string)
    decreases |s|
  {
    if |s| > 0 && s[|s| - 1] == ' ' then TrimTrailingBlanks(s[..|s| - 1]) else s
  }

  /** The loop body of `gridColumns`: for each span `s`, `s` copies of
      `"(l/s)fr "`. */
  function Lanes(spans: seq<nat>, l: nat): string
    requires AllPositive(spans)
  {
    if spans == [] then ""
    else Repeat(Fr(l / spans[0]) + " ", spans[0]) + Lanes(spans[1..], l)
  }

  /** `gridColumns(spans)`, for positive spans (the source divides by each). */
  function GridColumns(spans: seq<nat>): string
    requires AllPositive(spans)
  {
    TrimTrailingBlanks("50px " + Lanes(spans, Lcm(spans)))
  }

  // Reference description of the template as a list of tokens.

  function Sum(s: seq<nat>): nat {
    if s == [] then 0 else s[0] + Sum(s[1..])
  }

  lemma {:induction false} SumSnoc(s: seq<nat>, x: nat)
    ensures Sum(s + [x]) == Sum(s) + x
  {
    if s != [] {
      SumSnoc(s[1..], x);
      assert (s + [x])[1..] == s[1..] + [x];
    }
  }

  /** The tokens of the day columns: for each span `s`, `s` tokens `(l/s)fr`. */
  function DayTokens(spans: seq<nat>, l: nat): (ts: seq<string>)
    requires AllPositive(spans)
    ensures |ts| == Sum(spans)
  {
    if spans == [] then []
    else seq(spans[0], _ => Fr(l / spans[0])) + DayTokens(spans[1..], l)
  }

  function GridTokens(spans: seq<nat>): (ts: seq<string>)
    requires AllPositive(spans)
  {
    ["50px"] + DayTokens(spans, Lcm(spans))
  }

  /** Tokens separated by single blanks. */
  function Join(ts: seq<string>): string {
    if |ts| == 0 then ""
    else if |ts| == 1 then ts[0]
    else ts[0] + " " + Join(ts[1..])
  }

  /** Each token followed by a blank. */
  function Spaced(ts: seq<string>): string {
    if ts == [] then "" else ts[0] + " " + Spaced(ts[1..])
  }

  lemma {:induction false} SpacedAppend(a: seq<string>, b: seq<string>)
    ensures Spaced(a + b) == Spaced(a) + Spaced(b)
  {
    if a != [] {
      assert (a + b)[1..] == a[1..] + b;
      SpacedAppend(a[1..], b);
    } else {
      assert a + b == b;
    }
  }

  lemma {:induction false} RepeatIsSpaced(t: string, n: nat)
    ensures Repeat(t + " ", n) == Spaced(seq(n, _ => t))
  {
    if n > 0 {
      RepeatIsSpaced(t, n - 1);
      assert seq(n, _ => t)[1..] == seq(n - 1, _ => t);
    }
  }

  lemma {:induction false} LanesAreSpacedTokens(spans: seq<nat>, l: nat)
    requires AllPositive(spans)
    ensures Lanes(spans, l) == Spaced(DayTokens(spans, l))
  {
    if spans != [] {
      assert AllPositive(spans[1..]);
      LanesAreSpacedTokens(spans[1..], l);
      RepeatIsSpaced(Fr(l / spans[0]), spans[0]);
      SpacedAppend(seq(spans[0], _ => Fr(l / spans[0])), DayTokens(spans[1..], l));
    }
  }

  lemma {:induction false} SpacedIsJoinPlusBlank(ts: seq<string>)
    requires |ts| > 0
    ensures Spaced(ts) == Join(ts) + " "
  {
    if |ts| > 1 {
      SpacedIsJoinPlusBlank(ts[1..]);
    } else {
      assert ts[1..] == [];
    }
  }

  /** The last character of a join is the last character of the last token. */
  lemma {:induction false} JoinEnds(ts: seq<string>)
    requires |ts| > 0 && |ts[|ts| - 1]| > 0
    ensures |Join(ts)| > 0 && Join(ts)[|Join(ts)| - 1] == ts[|ts| - 1][|ts[|ts| - 1]| - 1]
  {
    if |ts| > 1 {
      assert ts[1..][|ts[1..]| - 1] == ts[|ts| - 1];
      JoinEnds(ts[1..]);
    }
  }

  predicate BlankFreeEnd(t: string) {
    |t| > 0 && t[|t| - 1] != ' '
  }

  lemma FrEndsWithR(w: nat)
    ensures BlankFreeEnd(Fr(w))
  {
  }

  lemma TrimOneBlank(j: string)
    requires BlankFreeEnd(j)
    ensures TrimTrailingBlanks(j + " ") == j
  {
    var s := j + " ";
    assert s[|s| - 1] == ' ';
    assert s[..|s| - 1] == j;
  }

  /** The string `gridColumns` builds is its token list joined by single
      blanks: the fixed `50px` column, then for each span `s`, `s` tokens
      `(L/s)fr` with `L` the lcm of the spans. */
  lemma GridColumnsJoinsTokens(spans: seq<nat>)
    requires AllPositive(spans)
    ensures GridColumns(spans) == Join(GridTokens(spans))
  {
    var l := Lcm(spans);
    var ts := GridTokens(spans);
    LanesAreSpacedTokens(spans, l);
    assert ts[1..] == DayTokens(spans, l);
    assert "50px " + Lanes(spans, l) == Spaced(ts);
    SpacedIsJoinPlusBlank(ts);
    var last := ts[|ts| - 1];
    assert BlankFreeEnd(last) by {
      if |ts| > 1 {
        assert last in DayTokens(spans, l);
        DayTokensAreFr(spans, l, last);
      }
    }
    JoinEnds(ts);
    TrimOneBlank(Join(ts));
  }

  lemma {:induction false} DayTokensAreFr(spans: seq<nat>, l: nat, t: string)
    requires AllPositive(spans) && t in DayTokens(spans, l)
    ensures BlankFreeEnd(t)
  {
    if t in seq(spans[0], _ => Fr(l / spans[0])) {
      FrEndsWithR(l / spans[0]);
    } else {
      assert AllPositive(spans[1..]);
      DayTokensAreFr(spans[1..], l, t);
    }
  }

  /** Day `d`'s tokens start after the label column and the earlier days'
      lanes; each of its `spans[d]` tokens is `(L/spans[d])fr`, so every
      day's columns add up to the same `L` fractions. */
  lemma {:induction false} DayTokensLayout(spans: seq<nat>, l: nat, d: nat, k: nat)
    requires AllPositive(spans) && d < |spans| && k < spans[d]
    ensures Sum(spans[..d]) + k < |DayTokens(spans, l)|
    ensures DayTokens(spans, l)[Sum(spans[..d]) + k] == Fr(l / spans[d])
  {
    assert AllPositive(spans[1..]);
    var head := seq(spans[0], _ => Fr(l / spans[0]));
    if d > 0 {
      DayTokensLayout(spans[1..], l, d - 1, k);
      assert spans[1..][..d - 1] == spans[..d][1..];
      assert spans[..d][0] == spans[0];
      assert Sum(spans[..d]) == spans[0] + Sum(spans[1..][..d - 1]);
      assert spans[1..][d - 1] == spans[d];
    } else {
      assert spans[..0] == [];
    }
  }

  /** Position in the template of lane `k` of day `d`. */
  function TokenIndex(spans: seq<nat>, d: nat, k: nat): nat
    requires d <= |spans|
  {
    1 + Sum(spans[..d]) + k
  }

  /** The template has one token for the label column plus one per lane,
      and lane `k` of day `d` is the token `(L/spans[d])fr`. */
  lemma GridTokensLayout(spans: seq<nat>, d: nat, k: nat)
    requires AllPositive(spans)
    requires d < |spans| && k < spans[d]
    ensures |GridTokens(spans)| == 1 + Sum(spans)
    ensures GridTokens(spans)[0] == "50px"
    ensures TokenIndex(spans, d, k) < |GridTokens(spans)|
    ensures GridTokens(spans)[TokenIndex(spans, d, k)] == Fr(Lcm(spans) / spans[d])
  {
    var l := Lcm(spans);
    var dt := DayTokens(spans, l);
    var ts := GridTokens(spans);
    assert ts == ["50px"] + dt;
    DayTokensLayout(spans, l, d, k);
    var x := Sum(spans[..d]) + k;
    assert TokenIndex(spans, d, k) == 1 + x;
    assert ts[1 + x] == dt[x];
  }

  /** `spans[d] * (L/spans[d]) == L`: every day's lanes add up to the same
      `L` fractions, so all days are equally wide. */
  lemma EveryDayEquallyWide(spans: seq<nat>)
    requires AllPositive(spans)
    ensures forall d :: 0 <= d < |spans| ==> spans[d] * (Lcm(spans) / spans[d]) == Lcm(spans)
  {
    forall d | 0 <= d < |spans| ensures spans[d] * (Lcm(spans) / spans[d]) == Lcm(spans) {
      LcmDividesEach(spans, d);
      ExactShare(spans[d], Lcm(spans));
    }
  }

  lemma LcmDividesEach(spans: seq<nat>, d: nat)
    requires AllPositive(spans) && d < |spans|
    ensures Divides(spans[d], Lcm(spans))
  {
    LcmIsLeastCommonMultiple(spans);
  }

  /** A positive divisor of `l` times its share of `l` gives `l` back. */
  lemma ExactShare(s: nat, l: nat)
    requires s > 0 && Divides(s, l)
    ensures s * (l / s) == l
  {
    var k: nat :| Mul(k, s) == l;
    MultipleQuotient(k, s);
    assert l / s == k;
  }

  /** Trimming keeps every prefix that ends in a non-blank. */
  lemma {:induction false} TrimKeepsPrefix(s: string, k: nat)
    requires 0 < k <= |s| && s[k - 1] != ' '
    ensures k <= |TrimTrailingBlanks(s)| && TrimTrailingBlanks(s)[..k] == s[..k]
    decreases |s|
  {
    if s[|s| - 1] == ' ' {
      var s' := s[..|s| - 1];
      assert k <= |s'| && s'[k - 1] == s[k - 1];
      TrimKeepsPrefix(s', k);
      assert s'[..k] == s[..k];
    }
  }

  /** The template always opens with the label column. */
  lemma GridColumnsStartWithLabel(spans: seq<nat>)
    requires AllPositive(spans)
    ensures spans != [] ==> |GridColumns(spans)| >= 5 && GridColumns(spans)[..5] == "50px "
    ensures spans == [] ==> GridColumns(spans) == "50px"
  {
    var s := "50px " + Lanes(spans, Lcm(spans));
    if spans == [] {
      assert s == "50px" + " ";
      TrimOneBlank("50px");
    } else {
      assert Lanes(spans, Lcm(spans)) == Repeat(Fr(Lcm(spans) / spans[0]) + " ", spans[0]) + Lanes(spans[1..], Lcm(spans));
      var t := Fr(Lcm(spans) / spans[0]);
      assert |t| > 0 && t[|t| - 1] == 'r';
      assert Repeat(t + " ", spans[0]) == (t + " ") + Repeat(t + " ", spans[0] - 1);
      var k := 5 + |t|;
      assert s[..k] == "50px " + t;
      assert s[k - 1] == 'r';
      TrimKeepsPrefix(s, k);
      assert s[..k][..5] == s[..5];
    }
  }

  /** The spans of the unit test of `gridColumns` (a one-, two- and
      three-lane day and four one-lane days, lcm 6, see `LcmOfTestSpans`).
      The code emits the `50px` label column first and then one token per
      lane; the string the test expects starts with `1fr` and has no label
      column, so it does not match. */
  lemma GridColumnsExample(spans: seq<nat>)
    requires spans == [1, 2, 3, 1, 1, 1, 1]
    ensures AllPositive(spans)
    ensures GridColumns(spans) == "50px 6fr 3fr 3fr 2fr 2fr 2fr 6fr 6fr 6fr 6fr"
    ensures GridColumns(spans) != "1fr 6fr 3fr 3fr 2fr 2fr 2fr 6fr 6fr 6fr 6fr"
  {
    GridColumnsJoinsTokens(spans);
    TestTokens(spans);
    JoinEleven(GridTokens(spans));
    TestTemplateText();
    var e := "1fr 6fr 3fr 3fr 2fr 2fr 2fr 6fr 6fr 6fr 6fr";
    assert e[0] == '1';
  }

  /** The eleven tokens of the test's spans. */
  lemma TestTokens(spans: seq<nat>)
    requires spans == [1, 2, 3, 1, 1, 1, 1]
    ensures AllPositive(spans)
    ensures var ts := GridTokens(spans);
      && |ts| == 11 && ts[0] == "50px"
      && ts[1] == "6fr" && ts[2] == "3fr" && ts[3] == "3fr"
      && ts[4] == "2fr" && ts[5] == "2fr" && ts[6] == "2fr"
      && ts[7] == "6fr" && ts[8] == "6fr" && ts[9] == "6fr" && ts[10] == "6fr"
  {
    LcmOfTestSpans();
    TestDayTokens(spans, 6);
    FrOfDigit(6);
    FrOfDigit(3);
    FrOfDigit(2);
  }

  /** The day tokens of the test's spans for any lcm `l`. */
  lemma TestDayTokens(spans: seq<nat>, l: nat)
    requires spans == [1, 2, 3, 1, 1, 1, 1]
    ensures AllPositive(spans)
    ensures DayTokens(spans, l) ==
      seq(1, _ => Fr(l)) + (seq(2, _ => Fr(l / 2)) + (seq(3, _ => Fr(l / 3)) + seq(4, _ => Fr(l))))
  {
    var ones: seq<nat> := [1, 1, 1, 1];
    assert spans == [1] + ([2] + ([3] + ones));
    DayTokensCons(1, [2] + ([3] + ones), l);
    DayTokensCons(2, [3] + ones, l);
    DayTokensCons(3, ones, l);
    DayTokensOnes(ones, l);
  }

  lemma FrOfDigit(d: nat)
    requires d < 10
    ensures Fr(d) == [DigitChar(d), 'f', 'r']
  {
  }

  lemma DayTokensCons(s: nat, rest: seq<nat>, l: nat)
    requires s > 0 && AllPositive(rest)
    ensures AllPositive([s] + rest)
    ensures DayTokens([s] + rest, l) == seq(s, _ => Fr(l / s)) + DayTokens(rest, l)
  {
    assert ([s] + rest)[1..] == rest;
  }

  /** Days one lane wide take one full-width token each. */
  lemma {:induction false} DayTokensOnes(ones: seq<nat>, l: nat)
    requires forall i :: 0 <= i < |ones| ==> ones[i] == 1
    ensures AllPositive(ones)
    ensures DayTokens(ones, l) == seq(|ones|, _ => Fr(l))
  {
    if ones != [] {
      DayTokensOnes(ones[1..], l);
      assert seq(|ones|, _ => Fr(l)) == [Fr(l)] + seq(|ones| - 1, _ => Fr(l));
    }
  }

  /** Joining eleven tokens. */
  lemma JoinEleven(ts: seq<string>)
    requires |ts| == 11
    ensures Join(ts) == ts[0] + " " + (ts[1] + " " + (ts[2] + " " + (ts[3] + " " + (ts[4] + " "
      + (ts[5] + " " + (ts[6] + " " + (ts[7] + " " + (ts[8] + " " + (ts[9] + " " + ts[10])))))))))
  {
    assert Join(ts[10..]) == ts[10] by { assert ts[10..] == [ts[10]]; }
    JoinSuffix(ts, 9);
    JoinSuffix(ts, 8);
    JoinSuffix(ts, 7);
    JoinSuffix(ts, 6);
    JoinSuffix(ts, 5);
    JoinSuffix(ts, 4);
    JoinSuffix(ts, 3);
    JoinSuffix(ts, 2);
    JoinSuffix(ts, 1);
    JoinSuffix(ts, 0);
    assert ts[0..] == ts;
  }

  /** The template text, token by token. */
  lemma TestTemplateText()
    ensures "50px" + " " + ("6fr" + " " + ("3fr" + " " + ("3fr" + " " + ("2fr" + " " + ("2fr" + " "
      + ("2fr" + " " + ("6fr" + " " + ("6fr" + " " + ("6fr" + " " + "6fr")))))))))
      == "50px 6fr 3fr 3fr 2fr 2fr 2fr 6fr 6fr 6fr 6fr"
  {
    var a := "50px" + " " + ("6fr" + " " + ("3fr" + " " + ("3fr" + " " + ("2fr" + " " + ("2fr" + " "
      + ("2fr" + " " + ("6fr" + " " + ("6fr" + " " + ("6fr" + " " + "6fr")))))))));
    var b := "50px 6fr 3fr 3fr 2fr 2fr 2fr 6fr 6fr 6fr 6fr";
    assert |a| == |b|;
    forall i | 0 <= i < |a| ensures a[i] == b[i] {
    }
  }

  lemma JoinSuffix(ts: seq<string>, k: nat)
    requires k + 1 < |ts|
    ensures Join(ts[k..]) == ts[k] + " " + Join(ts[k + 1..])
  {
    assert ts[k..] == [ts[k]] + ts[k + 1..];
    JoinCons(ts[k], ts[k + 1..]);
  }

  lemma JoinCons(a: string, ts: seq<string>)
    requires ts != []
    ensures Join([a] + ts) == a + " " + Join(ts)
  {
    assert ([a] + ts)[1..] == ts;
  }

  lemma LcmOfTestSpans()
    ensures Lcm([1, 2, 3, 1, 1, 1, 1]) == 6
  {
    var spans: seq<nat> := [1, 2, 3, 1, 1, 1, 1];
    assert Gcd(2, 1) == 1;
    assert Lcm2(2, 1) == 2;
    assert Gcd(3, 2) == 1 by { assert Gcd(3, 2) == Gcd(1, 2); }
    assert Lcm2(3, 2) == 6;
    assert Gcd(1, 6) == 1 by { assert Gcd(1, 6) == Gcd(0, 1); }
    assert Lcm2(1, 6) == 6;
    assert spans[1..] == [2, 3, 1, 1, 1, 1];
    assert [2, 3, 1, 1, 1, 1][1..] == [3, 1, 1, 1, 1];
    assert [3, 1, 1, 1, 1][1..] == [1, 1, 1, 1];
    assert [1, 1, 1, 1][1..] == [1, 1, 1];
    assert [1, 1, 1][1..] == [1, 1];
    assert [1, 1][1..] == [1];
    assert LcmFrom(6, [1, 1, 1, 1]) == 6;
  }
}
