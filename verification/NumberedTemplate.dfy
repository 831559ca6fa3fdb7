/** Templates l0{0}l1{1}…ln, the form all SQL templates have. */
module NumberedTemplate {
  import opened Bytes
  import opened Template

  /** The literals; there is a one-digit marker between each and the next. */
  type Literals = ls: seq<string> | 0 < |ls| <= 11 witness [""]

  lemma DigitIsNumber(k: nat)
    requires k < 10
    ensures Stoi(Decimal(k)) == Some(k) && '{' !in Decimal(k) && '}' !in Decimal(k)
  {
    var c := Decimal(k)[0];
    assert 48 <= c as int <= 57;
    assert Decimal(k)[1..] == "";
    assert LeadingNumber(Decimal(k), 0) == LeadingNumber("", k);
  }

  /** The template up to its k-th literal. */
  function TemplateOf(ls: Literals, k: nat): string
    requires k < |ls|
  {
    if k == 0 then ls[0] else TemplateOf(ls, k - 1) + ("{" + Decimal(k - 1) + "}") + ls[k]
  }

  /** The same with the values in place of the markers. */
  function Filled(ls: Literals, vals: seq<string>, k: nat): string
    requires k < |ls| && |vals| >= |ls| - 1
  {
    if k == 0 then ls[0] else Filled(ls, vals, k - 1) + vals[k - 1] + ls[k]
  }

  /** The template taken apart from its k-th literal on. */
  function PartsOf(ls: Literals, k: nat): Parts
    requires k < |ls|
    decreases |ls| - k
  {
    if k == |ls| - 1 then End(ls[k]) else Marker(ls[k], Decimal(k), PartsOf(ls, k + 1))
  }

  /**
   No brace pair comes between the place where the scan resumes and the next marker, and none that holds a
   number, or none at all if there is no marker, behind the last one.
   */
  ghost predicate CleanLiterals(ls: Literals) {
    && (forall k :: 0 <= k < |ls| - 1 ==> NoPairFrom(ls[k], if k == 0 then 0 else 2))
    && CleanLast(ls)
  }

  ghost predicate CleanLast(ls: Literals) {
    Harmless(ls[|ls| - 1], if |ls| == 1 then 0 else 2, |ls| > 1)
  }

  lemma {:induction false} PartsAreGood(ls: Literals, k: nat, n: nat)
    requires k < |ls| && n >= |ls| - 1
    ensures InRange(PartsOf(ls, k), n)
    ensures CleanEnd(PartsOf(ls, k), if k == 0 then 0 else 2, k > 0) <==> CleanLast(ls)
    ensures forall skip: nat :: Clean(PartsOf(ls, k), skip) <==>
              forall j :: k <= j < |ls| - 1 ==> NoPairFrom(ls[j], if j == k then skip else 2)
    decreases |ls| - k
  {
    hide Stoi, NoPairFrom, Harmless;
    if k < |ls| - 1 {
      DigitIsNumber(k);
      PartsAreGood(ls, k + 1, n);
      var rest := PartsOf(ls, k + 1);
      assert Clean(rest, 2) <==> forall j :: k + 1 <= j < |ls| - 1 ==> NoPairFrom(ls[j], 2);
      forall skip: nat
        ensures Clean(PartsOf(ls, k), skip) <==>
                  forall j :: k <= j < |ls| - 1 ==> NoPairFrom(ls[j], if j == k then skip else 2)
      {
        assert Clean(PartsOf(ls, k), skip) <==> NoPairFrom(ls[k], skip) && Clean(rest, 2);
      }
    }
  }

  lemma {:induction false} PartsRender(ls: Literals, vals: seq<string>, k: nat)
    requires k < |ls| && |vals| >= |ls| - 1
    ensures InRange(PartsOf(ls, 0), |vals|) && InRange(PartsOf(ls, k), |vals|)
    ensures ls[k] <= Render(PartsOf(ls, k)) && ls[k] <= Substitute(PartsOf(ls, k), vals)
    ensures Render(PartsOf(ls, 0)) == TemplateOf(ls, k) + Render(PartsOf(ls, k))[|ls[k]|..]
    ensures Substitute(PartsOf(ls, 0), vals) == Filled(ls, vals, k) + Substitute(PartsOf(ls, k), vals)[|ls[k]|..]
  {
    hide Stoi, Clean;
    PartsAreGood(ls, 0, |vals|);
    PartsAreGood(ls, k, |vals|);
    if k > 0 {
      PartsRender(ls, vals, k - 1);
      DigitIsNumber(k - 1);
      var m, r, u := "{" + Decimal(k - 1) + "}", Render(PartsOf(ls, k)), Substitute(PartsOf(ls, k), vals);
      assert PartsOf(ls, k - 1) == Marker(ls[k - 1], Decimal(k - 1), PartsOf(ls, k));
      assert Render(PartsOf(ls, k - 1))[|ls[k - 1]|..] == m + r;
      assert Substitute(PartsOf(ls, k - 1), vals)[|ls[k - 1]|..] == vals[k - 1] + u;
      assert r == ls[k] + r[|ls[k]|..] && u == ls[k] + u[|ls[k]|..];
      Regroup(TemplateOf(ls, k - 1), m, ls[k], r[|ls[k]|..]);
      Regroup(Filled(ls, vals, k - 1), vals[k - 1], ls[k], u[|ls[k]|..]);
    }
  }

  lemma Regroup(a: string, b: string, c: string, d: string)
    ensures a + (b + (c + d)) == (a + b + c) + d
  {
  }

  /** The whole template and its substitution. */
  lemma WholeParts(ls: Literals, vals: seq<string>)
    requires |vals| == |ls| - 1
    ensures InRange(PartsOf(ls, 0), |ls| - 1)
    ensures Render(PartsOf(ls, 0)) == TemplateOf(ls, |ls| - 1)
    ensures Substitute(PartsOf(ls, 0), vals) == Filled(ls, vals, |ls| - 1)
    ensures Clean(PartsOf(ls, 0), 0) && CleanEnd(PartsOf(ls, 0), 0, false) <==> CleanLiterals(ls)
  {
    hide Clean, CleanEnd, CleanLast, TemplateOf, Filled, NoPairFrom, InRange, Stoi;
    PartsAreGood(ls, 0, |vals|);
    PartsRender(ls, vals, |ls| - 1);
  }

  /**
   One pass over a numbered template fills in the values, for all values, exactly when its literals are
   clean.
   */
  lemma {:induction false} PassIff(ls: Literals)
    ensures (forall vals :: |vals| == |ls| - 1 ==>
               Format(TemplateOf(ls, |ls| - 1), vals) == Text(Filled(ls, vals, |ls| - 1)))
            <==> CleanLiterals(ls)
  {
    hide Format, Clean, CleanEnd, Render, Substitute, TemplateOf, Filled, CleanLiterals, InRange, PartsOf;
    var n := |ls| - 1;
    WholeParts(ls, seq(n, _ => ""));
    SubstitutesIffClean(PartsOf(ls, 0), n);
    forall vals: seq<string> | |vals| == n
      ensures Render(PartsOf(ls, 0)) == TemplateOf(ls, n) &&
              InRange(PartsOf(ls, 0), n) && Substitute(PartsOf(ls, 0), vals) == Filled(ls, vals, n)
    {
      WholeParts(ls, vals);
    }
  }

  lemma Pass(ls: Literals, vals: seq<string>)
    requires CleanLiterals(ls) && |vals| == |ls| - 1
    ensures Format(TemplateOf(ls, |ls| - 1), vals) == Text(Filled(ls, vals, |ls| - 1))
  {
    hide Format, TemplateOf, Filled, CleanLiterals;
    PassIff(ls);
  }

  // ---- The templates written out ----

  lemma WrittenOut1(ls: Literals, vals: seq<string>)
    requires |ls| == 2 && |vals| == 1
    ensures TemplateOf(ls, 1) == ls[0] + "{0}" + ls[1]
    ensures Filled(ls, vals, 1) == ls[0] + vals[0] + ls[1]
  {
    assert "{" + Decimal(0) + "}" == "{0}";
  }

  lemma WrittenOut2(ls: Literals, vals: seq<string>)
    requires |ls| >= 3 && |vals| >= |ls| - 1
    ensures TemplateOf(ls, 2) == ls[0] + "{0}" + ls[1] + "{1}" + ls[2]
    ensures Filled(ls, vals, 2) == ls[0] + vals[0] + ls[1] + vals[1] + ls[2]
  {
    assert "{" + Decimal(0) + "}" == "{0}" && "{" + Decimal(1) + "}" == "{1}";
    assert TemplateOf(ls, 1) == ls[0] + "{0}" + ls[1];
    assert Filled(ls, vals, 1) == ls[0] + vals[0] + ls[1];
  }

  lemma WrittenOut3(ls: Literals, vals: seq<string>)
    requires |ls| >= 4 && |vals| >= |ls| - 1
    ensures TemplateOf(ls, 3) == ls[0] + "{0}" + ls[1] + "{1}" + ls[2] + "{2}" + ls[3]
    ensures Filled(ls, vals, 3) == ls[0] + vals[0] + ls[1] + vals[1] + ls[2] + vals[2] + ls[3]
  {
    WrittenOut2(ls, vals);
    assert "{" + Decimal(2) + "}" == "{2}";
  }

  lemma WrittenOut5(ls: Literals, vals: seq<string>)
    requires |ls| == 6 && |vals| == 5
    ensures TemplateOf(ls, 5) ==
            ls[0] + "{0}" + ls[1] + "{1}" + ls[2] + "{2}" + ls[3] + "{3}" + ls[4] + "{4}" + ls[5]
    ensures Filled(ls, vals, 5) ==
            ls[0] + vals[0] + ls[1] + vals[1] + ls[2] + vals[2] + ls[3] + vals[3] + ls[4] + vals[4] + ls[5]
  {
    WrittenOut3(ls, vals);
    assert "{" + Decimal(3) + "}" == "{3}" && "{" + Decimal(4) + "}" == "{4}";
    assert TemplateOf(ls, 5) == TemplateOf(ls, 4) + "{4}" + ls[5];
    assert TemplateOf(ls, 4) == TemplateOf(ls, 3) + "{3}" + ls[4];
    assert Filled(ls, vals, 4) == Filled(ls, vals, 3) + vals[3] + ls[4];
  }
}
