/** Fleet group ids: a tenant id and a slug of the group's name, divided by '_'. */
module Slug {
  import opened Text

  predicate IsSlugChar(c: char) {
    'a' <= c <= 'z' || '0' <= c <= '9'
  }

  predicate IsOther(c: char) { !IsSlugChar(c) }
  predicate IsDash(c: char) { c == '-' }

  /** Every run of other characters becomes one '-'. */
  function ReplaceRuns(s: string): string
    decreases |s|
  {
    if s == "" then ""
    else if IsSlugChar(s[0]) then [s[0]] + ReplaceRuns(s[1..])
    else "-" + ReplaceRuns(TrimLeft(s[1..], IsOther))
  }

  function TrimDashes(s: string): string {
    TrimRight(TrimLeft(s, IsDash), IsDash)
  }

  function SlugOf(name: string): string {
    TrimDashes(ReplaceRuns(ToLower(TrimSpace(name))))
  }

  const SEPARATOR := "_"

  function GroupID(tenantID: string, name: string): string {
    var s := SlugOf(name);
    if s == "" then "" else tenantID + SEPARATOR + s
  }

  /** Lower-case letters, digits and single dashes. */
  ghost predicate Clean(s: string) {
    && (forall i :: 0 <= i < |s| ==> 'a' <= s[i] <= 'z' || '0' <= s[i] <= '9' || s[i] == '-')
    && (forall i, j :: 0 <= i < |s| && 0 <= j < |s| && j == i + 1 ==> !(s[i] == '-' && s[j] == '-'))
  }

  /** A slug: clean, and no dash at either end. */
  ghost predicate IsSlug(s: string) {
    Clean(s) && (s != "" ==> s[0] != '-' && s[|s| - 1] != '-')
  }

  lemma {:induction false} ReplaceRunsIsClean(s: string)
    ensures Clean(ReplaceRuns(s))
    ensures s != "" ==> ReplaceRuns(s) != "" && ReplaceRuns(s)[0] == if IsSlugChar(s[0]) then s[0] else '-'
    decreases |s|
  {
    if s != "" {
      var head, rest := if IsSlugChar(s[0]) then s[0] else '-', if IsSlugChar(s[0]) then s[1..] else TrimLeft(s[1..], IsOther);
      ReplaceRunsIsClean(rest);
      Prepend(head, ReplaceRuns(rest));
    }
  }

  lemma Prepend(c: char, s: string)
    requires Clean(s) && (IsSlugChar(c) || c == '-') && (c == '-' && s != "" ==> s[0] != '-')
    ensures Clean([c] + s)
  {
    var longer := [c] + s;
    assert forall i :: 0 < i < |longer| ==> longer[i] == s[i - 1];
  }

  lemma {:induction false} CleanStays(s: string)
    requires Clean(s)
    ensures ReplaceRuns(s) == s
  {
    if s != "" {
      var rest := s[1..];
      assert s == [s[0]] + rest;
      CleanTail(s);
      CleanStays(rest);
      if s[0] == '-' {
        assert TrimLeft(rest, IsOther) == rest;
      }
    }
  }

  lemma CleanTail(s: string)
    requires Clean(s) && s != ""
    ensures Clean(s[1..]) && (s[0] == '-' && s[1..] != "" ==> IsSlugChar(s[1..][0]))
  {
    var rest := s[1..];
    assert forall i :: 0 <= i < |rest| ==> rest[i] == s[i + 1];
    assert rest != "" ==> rest[0] == s[1];
  }

  lemma CleanPart(s: string, lo: nat, hi: nat)
    requires Clean(s) && lo <= hi <= |s|
    ensures Clean(s[lo..hi])
  {
    var part := s[lo..hi];
    assert forall i :: 0 <= i < |part| ==> part[i] == s[lo + i];
  }

  lemma CleanTrimLeft(s: string, cut: char -> bool)
    requires Clean(s)
    ensures Clean(TrimLeft(s, cut))
  {
    var lead := TrimLeftIs(s, cut);
    CleanPart(s, |lead|, |s|);
    assert TrimLeft(s, cut) == s[|lead|..|s|];
  }

  lemma CleanTrimRight(s: string, cut: char -> bool)
    requires Clean(s)
    ensures Clean(TrimRight(s, cut))
  {
    var tail := TrimRightIs(s, cut);
    CleanPart(s, 0, |TrimRight(s, cut)|);
    assert TrimRight(s, cut) == s[0..|TrimRight(s, cut)|];
  }

  lemma TrimDashesIsSlug(s: string)
    requires Clean(s)
    ensures IsSlug(TrimDashes(s))
  {
    CleanTrimLeft(s, IsDash);
    CleanTrimRight(TrimLeft(s, IsDash), IsDash);
    var lead, tail := TrimIs(s, IsDash);
  }

  /** A slug contains only lower-case letters, digits and single inner dashes. */
  lemma SlugIsSlug(name: string)
    ensures IsSlug(SlugOf(name))
  {
    ReplaceRunsIsClean(ToLower(TrimSpace(name)));
    TrimDashesIsSlug(ReplaceRuns(ToLower(TrimSpace(name))));
  }

  lemma NothingToTrim(s: string, cut: char -> bool)
    requires s != "" ==> !cut(s[0]) && !cut(s[|s| - 1])
    ensures TrimRight(TrimLeft(s, cut), cut) == s
  {
  }

  lemma LowerStays(s: string)
    requires Clean(s)
    ensures ToLower(s) == s
  {
    assert forall i :: 0 <= i < |s| ==> LowerChar(s[i]) == s[i];
  }

  lemma SlugsStay(s: string)
    requires IsSlug(s)
    ensures SlugOf(s) == s
  {
    NothingToTrim(s, IsSpace);
    LowerStays(s);
    CleanStays(s);
    NothingToTrim(s, IsDash);
  }

  /** The names that are their own slug are exactly the slugs; so taking the slug twice changes nothing. */
  lemma FixedPointsAreSlugs(name: string)
    ensures SlugOf(name) == name <==> IsSlug(name)
    ensures SlugOf(SlugOf(name)) == SlugOf(name)
  {
    SlugIsSlug(name);
    if IsSlug(name) { SlugsStay(name); }
    SlugsStay(SlugOf(name));
  }

  // ---- what a slug keeps of its name ----

  /** Where the lower-case letters and digits of s stand. */
  function Positions(s: string): seq<nat> {
    if s == "" then []
    else if IsSlugChar(s[|s| - 1]) then Positions(s[..|s| - 1]) + [|s| - 1]
    else Positions(s[..|s| - 1])
  }

  lemma {:induction false} PositionsAre(s: string)
    ensures forall i, j :: 0 <= i < j < |Positions(s)| ==> Positions(s)[i] < Positions(s)[j]
    ensures forall p :: p in Positions(s) <==> 0 <= p < |s| && ('a' <= s[p] <= 'z' || '0' <= s[p] <= '9')
    ensures forall k :: 0 <= k < |Positions(s)| ==> Positions(s)[k] < |s| && IsSlugChar(s[Positions(s)[k]])
  {
    if s != "" {
      var init := s[..|s| - 1];
      PositionsAre(init);
      forall i | 0 <= i < |Positions(init)| ensures Positions(init)[i] < |s| - 1 {
        assert Positions(init)[i] in Positions(init);
      }
    }
  }

  lemma InPositions(s: string, p: nat)
    requires p < |s| && IsSlugChar(s[p])
    ensures p in Positions(s)
  {
    PositionsAre(s);
  }

  /** The k-th letter or digit is the same, and next to the one before it in both or in neither. */
  ghost predicate SameStep(s: string, t: string, k: nat) {
    var ps, qs := Positions(s), Positions(t);
    && k < |ps| && k < |qs| && ps[k] < |s| && qs[k] < |t| && s[ps[k]] == t[qs[k]]
    && (k > 0 ==> (ps[k] == ps[k - 1] + 1 <==> qs[k] == qs[k - 1] + 1))
  }

  /** The same letters and digits in the same order, next to each other in the same places. */
  ghost predicate SameWords(s: string, t: string) {
    |Positions(s)| == |Positions(t)| && forall k: nat :: k < |Positions(s)| ==> SameStep(s, t, k)
  }

  /** The letters and digits of s, each with whether it begins a word; gap says that the first one does. */
  function Steps(s: string, gap: bool): seq<(char, bool)> {
    if s == "" then []
    else if IsSlugChar(s[0]) then [(s[0], gap)] + Steps(s[1..], false)
    else Steps(s[1..], true)
  }

  lemma {:induction false} StepsSnoc(s: string, c: char, gap: bool)
    ensures Steps(s + [c], gap)
            == Steps(s, gap) + (if IsSlugChar(c) then [(c, if s == "" then gap else !IsSlugChar(s[|s| - 1]))] else [])
  {
    if s != "" {
      var rest := s[1..];
      assert (s + [c])[1..] == rest + [c] && (s + [c])[0] == s[0];
      StepsSnoc(rest, c, !IsSlugChar(s[0]));
      if IsSlugChar(s[0]) {
        StepsSnoc(rest, c, false);
      }
      assert rest != "" ==> rest[|rest| - 1] == s[|s| - 1];
    }
  }

  ghost predicate CutsOthers(cut: char -> bool) {
    forall c :: cut(c) ==> !IsSlugChar(c)
  }

  lemma {:induction false} StepsTrimLeft(s: string, cut: char -> bool)
    requires CutsOthers(cut)
    ensures Steps(TrimLeft(s, cut), true) == Steps(s, true)
  {
    if s != "" && cut(s[0]) { StepsTrimLeft(s[1..], cut); }
  }

  lemma {:induction false} StepsTrimRight(s: string, cut: char -> bool, gap: bool)
    requires CutsOthers(cut)
    ensures Steps(TrimRight(s, cut), gap) == Steps(s, gap)
  {
    if s != "" && cut(s[|s| - 1]) {
      StepsTrimRight(s[..|s| - 1], cut, gap);
      StepsSnoc(s[..|s| - 1], s[|s| - 1], gap);
      assert s == s[..|s| - 1] + [s[|s| - 1]];
    }
  }

  lemma StepsTrim(s: string, cut: char -> bool)
    requires CutsOthers(cut)
    ensures Steps(TrimRight(TrimLeft(s, cut), cut), true) == Steps(s, true)
  {
    StepsTrimLeft(s, cut);
    StepsTrimRight(TrimLeft(s, cut), cut, true);
  }

  lemma {:induction false} StepsReplaceRuns(s: string, gap: bool)
    ensures Steps(ReplaceRuns(s), gap) == Steps(s, gap)
    decreases |s|
  {
    if s != "" {
      var rest := s[1..];
      if IsSlugChar(s[0]) {
        assert ([s[0]] + ReplaceRuns(rest))[1..] == ReplaceRuns(rest);
        StepsReplaceRuns(rest, false);
      } else {
        var after := TrimLeft(rest, IsOther);
        assert ("-" + ReplaceRuns(after))[1..] == ReplaceRuns(after);
        StepsReplaceRuns(after, true);
        StepsTrimLeft(rest, IsOther);
      }
    }
  }

  /** What is cut off at the ends does not depend on case. */
  ghost predicate IgnoresCase(cut: char -> bool) {
    forall c :: cut(LowerChar(c)) == cut(c)
  }

  lemma LowerCons(s: string)
    requires s != ""
    ensures ToLower(s) != "" && ToLower(s)[0] == LowerChar(s[0]) && ToLower(s)[1..] == ToLower(s[1..])
  {
  }

  lemma {:induction false} LowerTrimLeft(s: string, cut: char -> bool)
    requires IgnoresCase(cut)
    ensures ToLower(TrimLeft(s, cut)) == TrimLeft(ToLower(s), cut)
  {
    if s != "" {
      LowerCons(s);
      LowerTrimLeft(s[1..], cut);
    }
  }

  lemma {:induction false} LowerSnoc(s: string)
    requires s != ""
    ensures ToLower(s)[|s| - 1] == LowerChar(s[|s| - 1]) && ToLower(s)[..|s| - 1] == ToLower(s[..|s| - 1])
  {
    if |s| > 1 {
      LowerSnoc(s[1..]);
      assert s[..|s| - 1][1..] == s[1..][..|s| - 2];
    }
  }

  lemma {:induction false} LowerTrimRight(s: string, cut: char -> bool)
    requires IgnoresCase(cut)
    ensures ToLower(TrimRight(s, cut)) == TrimRight(ToLower(s), cut)
  {
    if s != "" {
      LowerSnoc(s);
      LowerTrimRight(s[..|s| - 1], cut);
    }
  }

  lemma LowerTrimSpace(s: string)
    ensures ToLower(TrimSpace(s)) == TrimSpace(ToLower(s))
  {
    assert IgnoresCase(IsSpace);
    LowerTrimLeft(s, IsSpace);
    LowerTrimRight(TrimLeft(s, IsSpace), IsSpace);
  }

  lemma SpacesAndDashesAreOthers()
    ensures CutsOthers(IsSpace) && CutsOthers(IsDash)
  {
  }

  lemma StepsTrimSpace(s: string)
    ensures Steps(TrimSpace(s), true) == Steps(s, true)
  {
    SpacesAndDashesAreOthers();
    StepsTrim(s, IsSpace);
  }

  lemma StepsTrimDashes(s: string)
    ensures Steps(TrimDashes(s), true) == Steps(s, true)
  {
    SpacesAndDashesAreOthers();
    StepsTrim(s, IsDash);
  }

  lemma SlugSteps(name: string)
    ensures Steps(SlugOf(name), true) == Steps(ToLower(name), true)
  {
    LowerTrimSpace(name);
    StepsTrimSpace(ToLower(name));
    StepsReplaceRuns(TrimSpace(ToLower(name)), true);
    StepsTrimDashes(ReplaceRuns(TrimSpace(ToLower(name))));
  }

  /** The k-th letter or digit stands at the k-th position, and begins a word if none stands right before it. */
  lemma {:induction false} StepsAt(s: string)
    ensures |Steps(s, true)| == |Positions(s)|
    ensures forall k :: 0 <= k < |Positions(s)| ==>
              Positions(s)[k] < |s|
              && Steps(s, true)[k] == (s[Positions(s)[k]], Positions(s)[k] == 0 || !IsSlugChar(s[Positions(s)[k] - 1]))
  {
    if s != "" {
      var init, last := s[..|s| - 1], s[|s| - 1];
      StepsAt(init);
      StepsSnoc(init, last, true);
      assert s == init + [last];
      forall k | 0 <= k < |Positions(init)|
        ensures Positions(s)[k] == Positions(init)[k] && Steps(s, true)[k] == Steps(init, true)[k]
      {
      }
    }
  }

  /** A letter or digit begins a word exactly when the one before it is not its neighbour. */
  lemma Adjacent(s: string, k: int)
    requires 0 <= k < |Positions(s)|
    ensures Positions(s)[k] < |s|
    ensures k == 0 && Positions(s)[k] > 0 ==> !IsSlugChar(s[Positions(s)[k] - 1])
    ensures k > 0 ==> Positions(s)[k - 1] < Positions(s)[k]
    ensures k > 0 ==> (Positions(s)[k] == Positions(s)[k - 1] + 1 <==> IsSlugChar(s[Positions(s)[k] - 1]))
  {
    var ps := Positions(s);
    PositionsAre(s);
    if ps[k] > 0 && IsSlugChar(s[ps[k] - 1]) {
      InPositions(s, ps[k] - 1);
      var j :| 0 <= j < |ps| && ps[j] == ps[k] - 1;
      assert j < k;
    }
  }

  /** What a step says, by its position and the one before it. */
  ghost predicate StepIs(s: string, k: int) {
    var ps, steps := Positions(s), Steps(s, true);
    && 0 <= k < |ps| == |steps| && ps[k] < |s| && steps[k].0 == s[ps[k]]
    && if k == 0 then steps[k].1 else (ps[k] == ps[k - 1] + 1 <==> !steps[k].1)
  }

  lemma StepsAre(s: string, k: nat)
    requires k < |Positions(s)|
    ensures StepIs(s, k)
  {
    StepsAt(s);
    Adjacent(s, k);
  }

  lemma SameStepsSameWords(s: string, t: string)
    ensures SameWords(s, t) <==> Steps(s, true) == Steps(t, true)
  {
    StepsAt(s);
    StepsAt(t);
    if |Positions(s)| == |Positions(t)| {
      forall k | 0 <= k < |Positions(s)| ensures StepIs(s, k) && StepIs(t, k) {
        StepsAre(s, k);
        StepsAre(t, k);
      }
      if SameWords(s, t) {
        forall k | 0 <= k < |Positions(s)| ensures Steps(s, true)[k] == Steps(t, true)[k] {
          assert StepIs(s, k) && StepIs(t, k) && SameStep(s, t, k);
        }
      }
      if Steps(s, true) == Steps(t, true) {
        forall k: nat | k < |Positions(s)| ensures SameStep(s, t, k) {
          assert StepIs(s, k) && StepIs(t, k);
        }
      }
    }
  }

  /** A slug is the words of its name in lower case; with SlugIsSlug it is determined by them. */
  lemma SlugKeepsWords(name: string)
    ensures SameWords(SlugOf(name), ToLower(name))
  {
    SlugSteps(name);
    SameStepsSameWords(SlugOf(name), ToLower(name));
  }

  /** Slugs of the same words are the same slug. */
  lemma SlugsOfWords(s: string, t: string)
    requires IsSlug(s) && IsSlug(t) && SameWords(s, t)
    ensures s == t
  {
    SameExtent(s, t);
    var i := FirstDifference(s, t);
    if i < |s| { SameAt(s, t, i); }
  }

  lemma FirstDifference(s: string, t: string) returns (i: nat)
    requires |s| == |t|
    ensures i <= |s| && s[..i] == t[..i]
    ensures if i < |s| then s[i] != t[i] else s == t
  {
    i := 0;
    while i < |s| && s[i] == t[i]
      invariant i <= |s| && s[..i] == t[..i]
    {
      i := i + 1;
    }
    assert i == |s| ==> s[..i] == s && t[..i] == t;
  }

  lemma SameExtent(s: string, t: string)
    requires IsSlug(s) && IsSlug(t) && SameWords(s, t)
    ensures Positions(s) == Positions(t) && |s| == |t|
  {
    SamePositions(s, t, |Positions(s)|);
    SlugEnds(s);
    SlugEnds(t);
  }

  lemma SameAt(s: string, t: string, i: nat)
    requires IsSlug(s) && IsSlug(t) && SameWords(s, t) && Positions(s) == Positions(t) && i < |s| == |t|
    ensures s[i] == t[i]
  {
    var ps := Positions(s);
    PositionsAre(s);
    PositionsAre(t);
    if i in ps {
      var k: nat :| k < |ps| && ps[k] == i;
      assert SameStep(s, t, k);
    }
  }

  lemma SlugEnds(s: string)
    requires IsSlug(s)
    ensures Positions(s) == [] <==> s == ""
    ensures s != "" ==> Positions(s)[0] == 0 && Positions(s)[|Positions(s)| - 1] == |s| - 1
  {
    var ps := Positions(s);
    if s != "" {
      PositionsAre(s);
      InPositions(s, 0);
      InPositions(s, |s| - 1);
      assert ps[|ps| - 1] in ps;
    }
  }

  /** In a slug two letters or digits in a row are neighbours, or one dash apart. */
  lemma SlugGap(s: string, k: int)
    requires IsSlug(s) && 0 < k < |Positions(s)|
    ensures Positions(s)[k] == Positions(s)[k - 1] + 1 || Positions(s)[k] == Positions(s)[k - 1] + 2
  {
    var ps := Positions(s);
    Adjacent(s, k);
    var p := ps[k];
    if p > ps[k - 1] + 2 {
      NothingBetween(s, k, p - 1);
      NothingBetween(s, k, p - 2);
    }
  }

  lemma NothingBetween(s: string, k: int, i: int)
    requires IsSlug(s) && 0 < k < |Positions(s)| && Positions(s)[k - 1] < i < Positions(s)[k]
    ensures i < |s| && s[i] == '-'
  {
    var ps := Positions(s);
    PositionsAre(s);
    assert ps[k] in ps;
    forall j | 0 <= j < |ps| ensures ps[j] != i { assert j <= k - 1 ==> ps[j] <= ps[k - 1]; }
  }

  lemma {:induction false} SamePositions(s: string, t: string, n: nat)
    requires IsSlug(s) && IsSlug(t) && SameWords(s, t) && n <= |Positions(s)|
    ensures forall k :: 0 <= k < n ==> Positions(s)[k] == Positions(t)[k]
  {
    if n > 0 {
      SamePositions(s, t, n - 1);
      assert SameStep(s, t, n - 1);
      if n == 1 {
        SlugEnds(s);
        SlugEnds(t);
      } else {
        SlugGap(s, n - 1);
        SlugGap(t, n - 1);
      }
    }
  }

  /** Two names of a tenant have the same id exactly when they have the same words, whatever the case of their letters. */
  lemma SameIDIff(tenant: string, name: string, name': string)
    ensures GroupID(tenant, name) == GroupID(tenant, name') <==> SameWords(ToLower(name), ToLower(name'))
    ensures EqualFold(name, name') ==> GroupID(tenant, name) == GroupID(tenant, name')
  {
    var s, s' := SlugOf(name), SlugOf(name');
    SameSlugIff(name, name');
    if s != "" && s' != "" && GroupID(tenant, name) == GroupID(tenant, name') {
      assert GroupID(tenant, name)[|tenant| + 1..] == s && GroupID(tenant, name')[|tenant| + 1..] == s';
    }
    SameStepsSameWords(ToLower(name), ToLower(name'));
  }

  lemma SameSlugIff(name: string, name': string)
    ensures SlugOf(name) == SlugOf(name') <==> SameWords(ToLower(name), ToLower(name'))
  {
    SlugIsSlug(name);
    SlugIsSlug(name');
    SlugSteps(name);
    SlugSteps(name');
    SameStepsSameWords(SlugOf(name), SlugOf(name'));
    SameStepsSameWords(ToLower(name), ToLower(name'));
    if SameWords(SlugOf(name), SlugOf(name')) { SlugsOfWords(SlugOf(name), SlugOf(name')); }
  }

  /** A name has an id exactly when it has a letter or a digit; the id is the tenant, '_' and the slug. */
  lemma IDIff(tenant: string, name: string)
    ensures GroupID(tenant, name) == "" <==> forall c :: c in ToLower(name) ==> !('a' <= c <= 'z' || '0' <= c <= '9')
    ensures GroupID(tenant, name) != "" ==> GroupID(tenant, name) == tenant + "_" + SlugOf(name)
  {
    EmptyIff(name);
    assert tenant + SEPARATOR + SlugOf(name) != "";
  }

  lemma EmptyIff(name: string)
    ensures SlugOf(name) == "" <==> forall c :: c in ToLower(name) ==> !('a' <= c <= 'z' || '0' <= c <= '9')
  {
    SlugIsSlug(name);
    SlugEnds(SlugOf(name));
    SlugKeepsWords(name);
    assert |Positions(SlugOf(name))| == |Positions(ToLower(name))|;
    NoPositions(ToLower(name));
  }

  lemma NoPositions(s: string)
    ensures Positions(s) == [] <==> forall c :: c in s ==> !('a' <= c <= 'z' || '0' <= c <= '9')
  {
    PositionsAre(s);
    if Positions(s) != [] {
      assert Positions(s)[0] in Positions(s);
      assert s[Positions(s)[0]] in s;
    } else {
      forall i | 0 <= i < |s| ensures !('a' <= s[i] <= 'z' || '0' <= s[i] <= '9') {
        assert i !in Positions(s);
      }
    }
  }

  /** A non-empty id holds exactly one '_': the separator. */
  lemma OneSeparator(tenant: string, name: string, i: nat)
    requires '_' !in tenant && i < |GroupID(tenant, name)|
    ensures GroupID(tenant, name)[i] == '_' <==> i == |tenant|
  {
    SlugIsSlug(name);
    SeparatorAt(tenant, SlugOf(name), i);
  }

  lemma SeparatorAt(tenant: string, slug: string, i: nat)
    requires '_' !in tenant && IsSlug(slug) && i < |tenant + SEPARATOR + slug|
    ensures (tenant + SEPARATOR + slug)[i] == '_' <==> i == |tenant|
  {
    var id := tenant + SEPARATOR + slug;
    if i < |tenant| {
      assert id[i] == tenant[i] && tenant[i] in tenant;
    } else if i > |tenant| {
      assert id[i] == slug[i - |tenant| - 1];
    }
  }

  /** Two ids of tenants without '_' are equal only if the tenants are and the names have the same slug. */
  lemma GroupIDSplits(tenant: string, name: string, tenant': string, name': string)
    requires '_' !in tenant && '_' !in tenant'
    requires GroupID(tenant, name) != "" && GroupID(tenant, name) == GroupID(tenant', name')
    ensures tenant == tenant' && SlugOf(name) == SlugOf(name')
  {
    var id := GroupID(tenant, name);
    assert |tenant| < |id| && |tenant'| < |id|;
    OneSeparator(tenant, name, |tenant'|);
    OneSeparator(tenant', name', |tenant'|);
    assert |tenant| == |tenant'|;
    assert id[..|tenant|] == tenant && id[..|tenant|] == tenant';
    assert id[|tenant| + 1..] == SlugOf(name) && id[|tenant| + 1..] == SlugOf(name');
  }
}
