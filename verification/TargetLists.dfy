// The list of targets that logical_name_set takes: its elements between commas, without
// the white space in front of them. White space behind an element stays, and an element
// of white space only puts a comma in front of the next.
module TargetLists {
  predicate IsSpace(c: char) {
    c == ' ' || '\t' <= c <= '\r'
  }

  predicate Blank(s: string) {
    forall i | 0 <= i < |s| :: IsSpace(s[i])
  }

  predicate NoComma(s: string) {
    forall i | 0 <= i < |s| :: s[i] != ','
  }

  /** The text without the white space at its start. */
  function TrimLeft(s: string): string {
    if s != "" && IsSpace(s[0]) then TrimLeft(s[1..]) else s
  }

  /** The text without the white space at its end. */
  function TrimRight(s: string): string {
    if s != "" && IsSpace(s[|s| - 1]) then TrimRight(s[..|s| - 1]) else s
  }

  lemma {:induction false} TrimLeftIs(s: string)
    ensures var t := TrimLeft(s);
            && |t| <= |s| && t == s[|s| - |t|..] && (t != "" ==> !IsSpace(t[0]))
            && forall i | 0 <= i < |s| - |t| :: IsSpace(s[i])
  {
    if s != "" && IsSpace(s[0]) {
      TrimLeftIs(s[1..]);
      assert forall i | 0 <= i < |s[1..]| :: s[1..][i] == s[i + 1];
      var t := TrimLeft(s);
      assert forall i | 1 <= i < |s| - |t| :: s[i] == s[1..][i - 1];
    }
  }

  lemma {:induction false} TrimRightIs(s: string)
    ensures var t := TrimRight(s);
            && |t| <= |s| && t == s[..|t|] && (t != "" ==> !IsSpace(t[|t| - 1]))
            && forall i | |t| <= i < |s| :: IsSpace(s[i])
  {
    if s != "" && IsSpace(s[|s| - 1]) {
      TrimRightIs(s[..|s| - 1]);
    }
  }

  lemma {:induction false} TrimsToNothing(s: string)
    ensures TrimLeft(s) == "" <==> Blank(s)
  {
    TrimLeftIs(s);
    var t := TrimLeft(s);
    if t != "" {
      assert s[|s| - |t|] == t[0];
    }
  }

  // ---- Taking a list apart ----

  /** The targets in what is left of a list: `pending` is what was read since the last one. */
  function Targets(pending: string, rest: string): seq<string>
    decreases |rest|
  {
    if rest != "" && rest[0] != ',' then Targets(pending + [rest[0]], rest[1..])
    else
      var target := TrimLeft(pending);
      var found := if target != "" then [target] else [];
      if rest == "" then found
      else if target != "" then found + Targets("", rest[1..])
      else Targets(",", rest[1..])
  }

  /** A character of a C string, with the end marker behind the last one. */
  function CharAt(s: string, i: nat): char
    requires i <= |s|
  {
    if i < |s| then s[i] else '\0'
  }

  /** The loops of logical_name_set, while memory lasts. */
  method Split(target: string) returns (targets: seq<string>)
    ensures targets == Targets("", target)
  {
    targets := [];
    var lastName := 0;
    assert target[0..0] == "" && target[0..] == target;
    for i := 0 to |target| + 1
      invariant 0 <= lastName <= i
      invariant i <= |target| ==> targets + Targets(target[lastName..i], target[i..]) == Targets("", target)
      invariant i == |target| + 1 ==> targets == Targets("", target)
    {
      if CharAt(target, i) == ',' || i == |target| {
        ghost var start, before := lastName, targets;
        lastName := SkipSpaces(target, lastName, i);
        var end := BackOverSpaces(target, lastName, i);
        AtElementEnd(before, target, start, lastName, i);
        if lastName < end {
          targets := targets + [target[lastName..end]];
          lastName := i + 1;
        }
      } else {
        assert target[i..][0] == target[i] && target[i..][1..] == target[i + 1..];
        assert target[lastName..i] + [target[i]] == target[lastName..i + 1];
      }
    }
  }

  /** The targets after one more element that ends at `i`, where `begin` is its start without white space. */
  lemma {:induction false} AtElementEnd(before: seq<string>, s: string, start: nat, begin: nat, i: nat)
    requires start <= begin <= i <= |s| && (i == |s| || s[i] == ',')
    requires s[begin..i] == TrimLeft(s[start..i])
    ensures var t := before + Targets(s[start..i], s[i..]);
            && (i == |s| ==> t == before + if begin < i then [s[begin..i]] else [])
            && (i < |s| && begin < i ==> t == before + [s[begin..i]] + Targets(s[i + 1..i + 1], s[i + 1..]))
            && (i < |s| && begin == i ==> t == before + Targets(s[begin..i + 1], s[i + 1..]))
  {
    NextTarget(s[start..i], s[i..]);
    TrimsToNothing(s[start..i]);
    if i < |s| {
      assert s[i..][1..] == s[i + 1..] && s[i..i + 1] == "," && s[i + 1..i + 1] == "";
    }
  }

  method SkipSpaces(s: string, i: nat, j: nat) returns (k: nat)
    requires i <= j <= |s|
    ensures i <= k <= j && s[k..j] == TrimLeft(s[i..j])
  {
    k := i;
    while k < j && IsSpace(s[k])
      invariant i <= k <= j && TrimLeft(s[k..j]) == TrimLeft(s[i..j])
    {
      assert s[k..j][1..] == s[k + 1..j];
      k := k + 1;
    }
  }

  /** The loop that is to strip white space behind an element; it looks at the character behind it first. */
  method BackOverSpaces(s: string, i: nat, j: nat) returns (k: nat)
    requires i <= j <= |s|
    ensures i <= k <= j && (k == i || !IsSpace(CharAt(s, k)))
    ensures forall m | k < m <= j :: IsSpace(CharAt(s, m))
  {
    k := j;
    while k > i && IsSpace(CharAt(s, k))
      invariant i <= k <= j && forall m | k < m <= j :: IsSpace(CharAt(s, m))
    {
      k := k - 1;
    }
  }

  // ---- What a list gives ----

  predicate NoCommas(elements: seq<string>) {
    forall i | 0 <= i < |elements| :: NoComma(elements[i])
  }

  /** Elements with commas between them. */
  function Joined(elements: seq<string>): string
    requires elements != []
  {
    if |elements| == 1 then elements[0] else elements[0] + ("," + Joined(elements[1..]))
  }

  /** The elements of a text: any text is some of them with commas between. */
  function Elements(s: string): (r: seq<string>)
    ensures r != [] && NoCommas(r)
  {
    if s == "" then [""]
    else
      var rest := Elements(s[1..]);
      if s[0] == ',' then [""] + rest else [[s[0]] + rest[0]] + rest[1..]
  }

  lemma {:induction false} ElementsJoin(s: string)
    ensures Joined(Elements(s)) == s
  {
    if s != "" {
      ElementsJoin(s[1..]);
      var rest, es := Elements(s[1..]), Elements(s);
      if s[0] == ',' {
        assert es[1..] == rest;
      } else {
        assert es[1..] == rest[1..];
      }
    }
  }

  /** The targets of elements. An element behind a blank one takes the comma between them along. */
  function Found(elements: seq<string>, comma: bool): seq<string> {
    if elements == [] then []
    else if comma then ["," + elements[0]] + Found(elements[1..], false)
    else if Blank(elements[0]) then Found(elements[1..], true)
    else [TrimLeft(elements[0])] + Found(elements[1..], false)
  }

  lemma {:induction false} ReadElement(pending: string, e: string, rest: string)
    requires NoComma(e) && (rest == "" || rest[0] == ',')
    ensures Targets(pending, e + rest) == Targets(pending + e, rest)
    decreases |e|
  {
    if e == "" {
      assert e + rest == rest && pending + e == pending;
    } else {
      assert (e + rest)[1..] == e[1..] + rest && pending + [e[0]] + e[1..] == pending + e;
      ReadElement(pending + [e[0]], e[1..], rest);
    }
  }

  lemma CommaFirst(e: string)
    ensures TrimLeft("," + e) == "," + e
  {
  }

  /** One more element, at a comma or at the end. */
  lemma {:induction false} NextTarget(pending: string, rest: string)
    requires rest == "" || rest[0] == ','
    ensures var found := if Blank(pending) then [] else [TrimLeft(pending)];
            Targets(pending, rest)
            == if rest == "" then found else found + Targets(if Blank(pending) then "," else "", rest[1..])
  {
    TrimsToNothing(pending);
    assert Blank(pending) && rest != "" ==> [] + Targets(",", rest[1..]) == Targets(",", rest[1..]);
  }

  lemma JoinedFirst(elements: seq<string>)
    requires elements != []
    ensures var rest := if |elements| == 1 then "" else "," + Joined(elements[1..]);
            Joined(elements) == elements[0] + rest
              && (rest != "" ==> rest[0] == ',' && rest[1..] == Joined(elements[1..]))
  {
    assert |elements| == 1 ==> elements[0] + "" == elements[0];
  }

  /** What the loops find in a list of elements. */
  lemma {:induction false} TargetsAreFound(elements: seq<string>, comma: bool)
    requires elements != [] && NoCommas(elements)
    ensures Targets(if comma then "," else "", Joined(elements)) == Found(elements, comma)
  {
    var e, start := elements[0], if comma then "," else "";
    var rest := if |elements| == 1 then "" else "," + Joined(elements[1..]);
    JoinedFirst(elements);
    ReadElement(start, e, rest);
    NextTarget(start + e, rest);
    CommaFirst(e);
    assert "" + e == e && ("," + e)[0] == ',';
    if |elements| > 1 {
      TargetsAreFound(elements[1..], !comma && Blank(e));
    }
    FoundFirst(elements, comma);
  }

  lemma {:induction false} FoundFirst(elements: seq<string>, comma: bool)
    requires elements != []
    ensures var e, rest := elements[0], elements[1..];
            var first := if comma then ["," + e] else if Blank(e) then [] else [TrimLeft(e)];
            && Found(elements, comma) == first + Found(rest, !comma && Blank(e))
            && (|elements| == 1 ==> Found(rest, !comma && Blank(e)) == [])
  {
    assert !comma && Blank(elements[0]) ==> [] + Found(elements[1..], true) == Found(elements[1..], true);
  }

  /** Nothing is found, and so nothing is set, exactly in a text of white space. */
  lemma {:induction false} NothingIsFound(s: string)
    ensures Targets("", s) == [] <==> Blank(s)
  {
    var es := Elements(s);
    ElementsJoin(s);
    TargetsAreFound(es, false);
    if |es| > 1 {
      assert s[|es[0]|] == ',';
    } else {
      assert es[1..] == [];
    }
  }

  /** The elements that are not blank, without the white space around them. */
  function Meant(elements: seq<string>): (r: seq<string>)
    requires NoCommas(elements)
    ensures NoCommas(r)
  {
    if elements == [] then []
    else
      assert forall i | 0 <= i < |elements[1..]| :: elements[1..][i] == elements[i + 1];
      TrimmedHasNoComma(elements[0]);
      (if Blank(elements[0]) then [] else [TrimRight(TrimLeft(elements[0]))]) + Meant(elements[1..])
  }

  /** No white space behind the element, or nothing else. */
  predicate Tight(e: string) {
    e == "" || !IsSpace(e[|e| - 1]) || Blank(e)
  }

  /**
   * The targets are the elements that are not blank, without the white space around
   * them, exactly when no element but the last is blank and white space follows none.
   */
  lemma {:induction false} FoundIsMeant(elements: seq<string>)
    requires NoCommas(elements)
    ensures Found(elements, false) == Meant(elements) <==>
            && (forall i | 0 <= i < |elements| - 1 :: !Blank(elements[i]))
            && (forall i | 0 <= i < |elements| :: Tight(elements[i]))
  {
    if elements != [] {
      var e, rest := elements[0], elements[1..];
      assert forall i | 0 <= i < |rest| :: rest[i] == elements[i + 1];
      FoundFirst(elements, false);
      if Blank(e) {
        if rest != [] {
          FoundFirst(rest, true);
          var f := Found(rest, true);
          assert f[0] == "," + rest[0] && f[0][0] == ',';
          assert Found(elements, false) == f && NoCommas(Meant(elements));
        }
      } else {
        FoundIsMeant(rest);
        LeftIsAll(e);
        FirstOfBoth(TrimLeft(e), TrimRight(TrimLeft(e)), Found(rest, false), Meant(rest));
        TightFrom(elements);
      }
    }
  }

  lemma FirstOfBoth(a: string, b: string, s: seq<string>, t: seq<string>)
    ensures [a] + s == [b] + t <==> a == b && s == t
  {
    assert ([a] + s)[0] == a && ([a] + s)[1..] == s && ([b] + t)[0] == b && ([b] + t)[1..] == t;
  }

  lemma TightFrom(elements: seq<string>)
    requires elements != []
    ensures var rest := elements[1..];
            && ((forall i | 0 <= i < |elements| - 1 :: !Blank(elements[i])) <==>
                  (rest == [] || !Blank(elements[0])) && forall i | 0 <= i < |rest| - 1 :: !Blank(rest[i]))
            && ((forall i | 0 <= i < |elements| :: Tight(elements[i])) <==>
                  Tight(elements[0]) && forall i | 0 <= i < |rest| :: Tight(rest[i]))
  {
    var rest := elements[1..];
    assert forall i | 1 <= i < |elements| :: elements[i] == rest[i - 1];
  }

  lemma {:induction false} LeftIsAll(e: string)
    requires !Blank(e)
    ensures TrimLeft(e) == TrimRight(TrimLeft(e)) <==> Tight(e)
  {
    var t := TrimLeft(e);
    TrimsToNothing(e);
    TrimLeftIs(e);
    TrimRightIs(t);
    assert t[|t| - 1] == e[|e| - 1];
  }

  lemma {:induction false} TrimmedHasNoComma(e: string)
    requires NoComma(e)
    ensures NoComma(TrimRight(TrimLeft(e)))
  {
    TrimLeftIs(e);
    TrimRightIs(TrimLeft(e));
  }

  /** One text of each kind that does not give what is meant. */
  lemma {:induction false} ListsThatGoWrong()
    ensures Targets("", "A,,B") == ["A", ",B"]
    ensures Targets("", "A ,B") == ["A ", "B"]
  {
    assert !IsSpace("A"[0]) && !IsSpace("A "[0]) && !IsSpace("B"[0]);
    ThreeElements("A", "", "B");
    TwoElements("A ", "B");
    assert TrimLeft("A") == "A" && TrimLeft("A ") == "A " && TrimLeft("B") == "B";
    assert "A" + ("," + ("" + ("," + "B"))) == "A,,B" && "," + "B" == ",B";
    assert "A " + ("," + "B") == "A ,B";
  }

  lemma {:induction false} TwoElements(a: string, b: string)
    requires NoComma(a) && NoComma(b) && !Blank(a) && !Blank(b)
    ensures Targets("", a + ("," + b)) == [TrimLeft(a), TrimLeft(b)]
  {
    TargetsAreFound([a, b], false);
    assert [a, b][1..] == [b] && Joined([b]) == b;
    FoundFirst([a, b], false);
    FoundFirst([b], false);
  }

  lemma {:induction false} ThreeElements(a: string, blank: string, b: string)
    requires NoComma(a) && NoComma(blank) && NoComma(b) && !Blank(a) && Blank(blank)
    ensures Targets("", a + ("," + (blank + ("," + b)))) == [TrimLeft(a), "," + b]
  {
    var es := [a, blank, b];
    TargetsAreFound(es, false);
    assert es[1..] == [blank, b] && [blank, b][1..] == [b] && Joined([b]) == b;
    FoundFirst(es, false);
    FoundFirst([blank, b], false);
    FoundFirst([b], true);
  }
}
