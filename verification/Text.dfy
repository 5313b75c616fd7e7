/** The string operations the source takes from its standard library, on ASCII text. */
module Text {
  import Sorting

  predicate IsSpace(c: char) {
    c == ' ' || '\t' <= c <= '\r'
  }

  function LowerChar(c: char): char {
    if 'A' <= c <= 'Z' then c + 32 as char else c
  }

  function ToLower(s: string): (r: string)
    ensures |r| == |s|
    ensures forall i :: 0 <= i < |s| ==> r[i] == LowerChar(s[i])
  {
    if s == "" then "" else [LowerChar(s[0])] + ToLower(s[1..])
  }

  predicate EqualFold(a: string, b: string) {
    ToLower(a) == ToLower(b)
  }

  /** The capitals and their small letters, and nothing else changes. */
  lemma LowerCharIs(c: char)
    ensures if 'A' <= c <= 'Z' then LowerChar(c) as int - 'a' as int == c as int - 'A' as int else LowerChar(c) == c
  {
  }

  function TrimLeft(s: string, cut: char -> bool): (r: string)
    ensures r != "" ==> !cut(r[0])
    ensures |r| <= |s|
  {
    if s != "" && cut(s[0]) then TrimLeft(s[1..], cut) else s
  }

  function TrimRight(s: string, cut: char -> bool): (r: string)
    ensures r != "" ==> !cut(r[|r| - 1])
    ensures |r| <= |s|
  {
    if s != "" && cut(s[|s| - 1]) then TrimRight(s[..|s| - 1], cut) else s
  }

  function TrimSpace(s: string): string {
    TrimRight(TrimLeft(s, IsSpace), IsSpace)
  }

  /** Every character of s is one to cut. */
  ghost predicate AllCut(s: string, cut: char -> bool) {
    forall i :: 0 <= i < |s| ==> cut(s[i])
  }

  /** Only characters to cut are cut off the front. */
  lemma {:induction false} TrimLeftIs(s: string, cut: char -> bool) returns (lead: string)
    ensures s == lead + TrimLeft(s, cut) && AllCut(lead, cut)
  {
    lead := "";
    if s != "" && cut(s[0]) {
      var rest := TrimLeftIs(s[1..], cut);
      lead := [s[0]] + rest;
    }
  }

  /** Only characters to cut are cut off the back, and the front stays. */
  lemma {:induction false} TrimRightIs(s: string, cut: char -> bool) returns (tail: string)
    ensures s == TrimRight(s, cut) + tail && AllCut(tail, cut)
    ensures TrimRight(s, cut) != "" ==> TrimRight(s, cut)[0] == s[0]
  {
    tail := "";
    if s != "" && cut(s[|s| - 1]) {
      var rest := TrimRightIs(s[..|s| - 1], cut);
      tail := rest + [s[|s| - 1]];
    }
  }

  /** Only characters to cut are cut off at the ends, and none is left there. */
  lemma TrimIs(s: string, cut: char -> bool) returns (lead: string, tail: string)
    ensures s == lead + (TrimRight(TrimLeft(s, cut), cut) + tail)
    ensures AllCut(lead, cut) && AllCut(tail, cut)
    ensures var both := TrimRight(TrimLeft(s, cut), cut);
            both != "" ==> !cut(both[0]) && !cut(both[|both| - 1])
  {
    lead := TrimLeftIs(s, cut);
    tail := TrimRightIs(TrimLeft(s, cut), cut);
  }

  /** Tab, line feed, vertical tab, form feed, return and space. */
  lemma SpaceIs(c: char)
    ensures IsSpace(c) <==> c as int in {9, 10, 11, 12, 13, 32}
  {
  }

  ghost predicate Blank(s: string) {
    forall i :: 0 <= i < |s| ==> s[i] as int in {9, 10, 11, 12, 13, 32}
  }

  lemma CutIsBlank(s: string)
    requires AllCut(s, IsSpace)
    ensures Blank(s)
  {
    forall i | 0 <= i < |s| ensures s[i] as int in {9, 10, 11, 12, 13, 32} { SpaceIs(s[i]); }
  }

  /** Trimming takes blanks off both ends, and all there are. */
  lemma TrimSpaceIs(s: string) returns (lead: string, tail: string)
    ensures s == lead + (TrimSpace(s) + tail) && Blank(lead) && Blank(tail)
    ensures TrimSpace(s) != "" ==> !Blank([TrimSpace(s)[0]]) && !Blank([TrimSpace(s)[|TrimSpace(s)| - 1]])
  {
    lead, tail := TrimIs(s, IsSpace);
    CutIsBlank(lead);
    CutIsBlank(tail);
    if TrimSpace(s) != "" {
      NotBlank(TrimSpace(s)[0]);
      NotBlank(TrimSpace(s)[|TrimSpace(s)| - 1]);
    }
  }

  lemma NotBlank(c: char)
    requires !IsSpace(c)
    ensures !Blank([c])
  {
    SpaceIs(c);
    assert [c][0] == c;
  }

  /** Equal up to the case of letters. */
  lemma EqualFoldIff(a: string, b: string)
    ensures EqualFold(a, b) <==> |a| == |b| && forall i :: 0 <= i < |a| ==> LowerChar(a[i]) == LowerChar(b[i])
  {
    if |a| == |b| && forall i :: 0 <= i < |a| ==> LowerChar(a[i]) == LowerChar(b[i]) {
      assert ToLower(a) == ToLower(b);
    }
    if EqualFold(a, b) {
      forall i | 0 <= i < |a| ensures LowerChar(a[i]) == LowerChar(b[i]) { assert ToLower(a)[i] == ToLower(b)[i]; }
    }
  }

  /** strings.Compare(a, b) < 0. */
  predicate Less(a: string, b: string) {
    if a == "" then b != ""
    else b != "" && (a[0] < b[0] || (a[0] == b[0] && Less(a[1..], b[1..])))
  }

  /** The first string is a proper beginning of the second, or has the smaller character where they first differ. */
  lemma {:induction false} LessIff(a: string, b: string)
    ensures Less(a, b) <==> || (|a| < |b| && a == b[..|a|])
                            || exists i :: 0 <= i < |a| && i < |b| && a[..i] == b[..i] && a[i] < b[i]
  {
    if a != "" && b != "" {
      LessIff(a[1..], b[1..]);
      if a[0] == b[0] { SameHead(a, b); }
      if a[0] < b[0] { assert a[..0] == b[..0]; }
      if b[0] < a[0] { FirstDiffer(a, b); }
    }
  }

  lemma SameHead(a: string, b: string)
    requires a != "" && b != "" && a[0] == b[0]
    ensures var a', b' := a[1..], b[1..];
            && (|a| < |b| && a == b[..|a|] <==> |a'| < |b'| && a' == b'[..|a'|])
            && ((exists i :: 0 <= i < |a| && i < |b| && a[..i] == b[..i] && a[i] < b[i])
                <==> (exists i :: 0 <= i < |a'| && i < |b'| && a'[..i] == b'[..i] && a'[i] < b'[i]))
  {
    var a', b' := a[1..], b[1..];
    if i :| 0 <= i < |a'| && i < |b'| && a'[..i] == b'[..i] && a'[i] < b'[i] {
      assert a[..i + 1] == [a[0]] + a'[..i] && b[..i + 1] == [b[0]] + b'[..i] && a[i + 1] < b[i + 1];
    }
    if i :| 0 <= i < |a| && i < |b| && a[..i] == b[..i] && a[i] < b[i] {
      assert a'[..i - 1] == a[..i][1..] && b'[..i - 1] == b[..i][1..] && a'[i - 1] < b'[i - 1];
    }
    if |a| < |b| {
      assert a == [a[0]] + a' && b[..|a|] == [b[0]] + b'[..|a'|];
      assert a' == a[1..] && b'[..|a'|] == b[..|a|][1..];
    }
  }

  lemma FirstDiffer(a: string, b: string)
    requires a != "" && b != "" && b[0] < a[0]
    ensures !(|a| < |b| && a == b[..|a|])
    ensures forall i :: 0 <= i < |a| && i < |b| && a[..i] == b[..i] ==> !(a[i] < b[i])
  {
    assert |a| < |b| ==> b[..|a|][0] == b[0];
    forall i | 0 < i < |a| && i < |b| ensures a[..i] != b[..i] {
      assert a[..i][0] == a[0] && b[..i][0] == b[0];
    }
  }

  lemma {:induction false} LessIrreflexive(a: string)
    ensures !Less(a, a)
  {
    if a != "" { LessIrreflexive(a[1..]); }
  }

  lemma {:induction false} LessTransitive(a: string, b: string, c: string)
    requires Less(a, b) && Less(b, c)
    ensures Less(a, c)
  {
    if a != "" && a[0] == b[0] == c[0] { LessTransitive(a[1..], b[1..], c[1..]); }
  }

  lemma {:induction false} LessTotal(a: string, b: string)
    ensures Less(a, b) || a == b || Less(b, a)
  {
    if a != "" && b != "" && a[0] == b[0] {
      LessTotal(a[1..], b[1..]);
      assert a == [a[0]] + a[1..] && b == [b[0]] + b[1..];
    }
  }

  ghost predicate Sorted(s: seq<string>) {
    forall i, j :: 0 <= i < j < |s| ==> Less(s[i], s[j])
  }

  /** Inserting a new string keeps a strictly ascending list strictly ascending. */
  lemma InsertKeepsSorted(x: string, s: seq<string>)
    requires Sorted(s) && x !in s
    ensures Sorted(Sorting.Insert(x, s, Less))
  {
    forall a, b, c | Less(a, b) && Less(b, c) ensures Less(a, c) { LessTransitive(a, b, c); }
    forall y | y in s ensures Less(x, y) || Less(y, x) { LessTotal(x, y); }
    Sorting.InsertOrders(x, s, Less);
  }
}
