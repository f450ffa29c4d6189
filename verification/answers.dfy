/** formatAnswer: the text shown in an item's hidden answer cell. */
module Answers {
  import opened Wrappers
  import opened Trivia
  import opened Text
  import opened Decimal

  /** Position, in the formatter's test order, of the first field that is
      set: 0 `regex`, 1 `choice`, 2 `and`, 3 `or`, 4 `n`, 5 none of them. */
  function Rank(a: Answer): (k: nat)
    requires a.Fields?
    ensures k <= 5
  {
    if a.regex != "" then 0
    else if a.choice != "" then 1
    else if a.allOf.Some? then 2
    else if a.anyOf.Some? then 3
    else if a.n != 0 then 4
    else 5
  }

  /** The formatter: a bare string is returned as is; otherwise the first set
      field in the order regex, choice, and, or, n decides the text. `None`
      is the `undefined` returned when no field is set, and `n` without an
      `of` list throws. */
  function FormatAnswer(a: Answer): (r: Outcome<Option<string>>)
    ensures a.Literal? ==> r == Ok(Some(a.text))
    ensures r.Err? <==> a.Fields? && Rank(a) == 4 && a.of.None?
    ensures r == Ok(None) <==> a.Fields? && Rank(a) == 5
  {
    match a
    case Literal(s) => Ok(Some(s))
    case Fields(regex, choice, allOf, anyOf, n, of) =>
      if regex != "" then Ok(Some("Matches regular expression " + regex))
      else if choice != "" then Ok(Some("Answer choice " + choice))
      else if allOf.Some? then Ok(Some("(all of) " + Join(allOf.value, ", ")))
      else if anyOf.Some? then Ok(Some("(any of) " + Join(anyOf.value, ", ")))
      else if n != 0 then
        match of
        case Some(xs) => Ok(Some("(" + IntToString(n) + " of) " + Join(xs, ", ")))
        case None => Err(MissingOfList)
      else Ok(None)
  }

  /** `a` and `b` carry the same fields up to and including position `k` of
      the test order. */
  predicate AgreeThrough(a: Answer, b: Answer, k: nat)
    requires a.Fields? && b.Fields?
  {
    a.regex == b.regex
    && (k >= 1 ==> a.choice == b.choice)
    && (k >= 2 ==> a.allOf == b.allOf)
    && (k >= 3 ==> a.anyOf == b.anyOf)
    && (k >= 4 ==> a.n == b.n && a.of == b.of)
  }

  /** Fields tested after the first set one never influence the result. */
  lemma PriorityOrder(a: Answer, b: Answer)
    requires a.Fields? && b.Fields?
    requires AgreeThrough(a, b, Rank(a))
    ensures Rank(b) == Rank(a)
    ensures FormatAnswer(b) == FormatAnswer(a)
  {
  }

  function RegexAnswer(pattern: string): Answer { Fields(pattern, "", None, None, 0, None) }
  function ChoiceAnswer(choiceLabel: string): Answer { Fields("", choiceLabel, None, None, 0, None) }
  function AllOfAnswer(xs: seq<string>): Answer { Fields("", "", Some(xs), None, 0, None) }
  function AnyOfAnswer(xs: seq<string>): Answer { Fields("", "", None, Some(xs), 0, None) }
  function ThresholdAnswer(n: int, xs: seq<string>): Answer { Fields("", "", None, None, n, Some(xs)) }

  /** The text of each kind of answer that sets a single field. */
  lemma VariantTexts(pattern: string, choiceLabel: string, xs: seq<string>, n: int)
    ensures pattern != "" ==>
              FormatAnswer(RegexAnswer(pattern)) == Ok(Some("Matches regular expression " + pattern))
    ensures choiceLabel != "" ==>
              FormatAnswer(ChoiceAnswer(choiceLabel)) == Ok(Some("Answer choice " + choiceLabel))
    ensures FormatAnswer(AllOfAnswer(xs)) == Ok(Some("(all of) " + Join(xs, ", ")))
    ensures FormatAnswer(AnyOfAnswer(xs)) == Ok(Some("(any of) " + Join(xs, ", ")))
    ensures n != 0 ==>
              FormatAnswer(ThresholdAnswer(n, xs)) == Ok(Some("(" + IntToString(n) + " of) " + Join(xs, ", ")))
  {
  }

  lemma CommaBorderFree()
    ensures BorderFree(", ")
  {
    UniqueHeadBorderFree(", ");
  }

  /** The items of an `and` list can be read back from the answer text when
      none of them contains ", ". */
  lemma AllOfRecoverable(xs: seq<string>)
    requires |xs| >= 1
    requires forall i :: 0 <= i < |xs| ==> Free(xs[i], ", ")
    ensures FormatAnswer(AllOfAnswer(xs)).Ok? && FormatAnswer(AllOfAnswer(xs)).value.Some?
    ensures var t := FormatAnswer(AllOfAnswer(xs)).value.value;
            |t| >= 9 && t[..9] == "(all of) " && Split(t[9..], ", ") == xs
  {
    var t := FormatAnswer(AllOfAnswer(xs)).value.value;
    assert t[9..] == Join(xs, ", ");
    CommaBorderFree();
    SplitOfJoin(xs, ", ");
  }

  /** Likewise for an `or` list. */
  lemma AnyOfRecoverable(xs: seq<string>)
    requires |xs| >= 1
    requires forall i :: 0 <= i < |xs| ==> Free(xs[i], ", ")
    ensures FormatAnswer(AnyOfAnswer(xs)).Ok? && FormatAnswer(AnyOfAnswer(xs)).value.Some?
    ensures var t := FormatAnswer(AnyOfAnswer(xs)).value.value;
            |t| >= 9 && t[..9] == "(any of) " && Split(t[9..], ", ") == xs
  {
    var t := FormatAnswer(AnyOfAnswer(xs)).value.value;
    assert t[9..] == Join(xs, ", ");
    CommaBorderFree();
    SplitOfJoin(xs, ", ");
  }

  /** The text of a positive threshold answer. */
  lemma ThresholdText(n: nat, xs: seq<string>)
    requires n >= 1
    ensures FormatAnswer(ThresholdAnswer(n, xs)) == Ok(Some("(" + NatToString(n) + " of) " + Join(xs, ", ")))
  {
  }

  /** Where the number and the list sit in a threshold text. */
  lemma ThresholdLayout(s: string, j: string)
    ensures var t := "(" + s + " of) " + j;
            |t| == |s| + 6 + |j| && t[..1] == "(" && t[1..1 + |s|] == s
            && t[1 + |s|..6 + |s|] == " of) " && t[6 + |s|..] == j
  {
  }

  /** A positive threshold and its `of` list can both be read back from the
      answer text. */
  lemma ThresholdRecoverable(n: nat, xs: seq<string>)
    requires n >= 1 && |xs| >= 1
    requires forall i :: 0 <= i < |xs| ==> Free(xs[i], ", ")
    ensures FormatAnswer(ThresholdAnswer(n, xs)).Ok? && FormatAnswer(ThresholdAnswer(n, xs)).value.Some?
    ensures var t := FormatAnswer(ThresholdAnswer(n, xs)).value.value;
            var d := |NatToString(n)|;
            |t| >= d + 6 && t[..1] == "(" && t[1 + d..6 + d] == " of) "
            && ParseNat(t[1..1 + d]) == n && Split(t[6 + d..], ", ") == xs
  {
    ThresholdText(n, xs);
    ThresholdLayout(NatToString(n), Join(xs, ", "));
    ParseNatToString(n);
    CommaBorderFree();
    SplitOfJoin(xs, ", ");
  }

  lemma JoinTwo(x: string, y: string, sep: string)
    ensures Join([x, y], sep) == x + sep + y
  {
    assert [x, y][1..] == [y];
  }

  lemma JoinThree(x: string, y: string, z: string, sep: string)
    ensures Join([x, y, z], sep) == x + sep + y + sep + z
  {
    assert [x, y, z][1..] == [y, z];
    JoinTwo(y, z, sep);
  }

  /** Sample answers and their texts. */
  lemma Examples()
    ensures FormatAnswer(Literal("4")) == Ok(Some("4"))
    ensures FormatAnswer(RegexAnswer("^cat.*")) == Ok(Some("Matches regular expression ^cat.*"))
    ensures FormatAnswer(ChoiceAnswer("B")) == Ok(Some("Answer choice B"))
  {
    assert "Matches regular expression " + "^cat.*" == "Matches regular expression ^cat.*";
    assert "Answer choice " + "B" == "Answer choice B";
  }

  /** Sample list answers and their texts. */
  lemma ListExamples()
    ensures FormatAnswer(AllOfAnswer(["x", "y"])) == Ok(Some("(all of) x, y"))
    ensures FormatAnswer(AnyOfAnswer(["x", "y"])) == Ok(Some("(any of) x, y"))
  {
    JoinTwo("x", "y", ", ");
    assert "(all of) " + ("x" + ", " + "y") == "(all of) x, y";
    assert "(any of) " + ("x" + ", " + "y") == "(any of) x, y";
  }

  /** A sample threshold answer and its text. */
  lemma ThresholdExample()
    ensures FormatAnswer(ThresholdAnswer(2, ["x", "y", "z"])) == Ok(Some("(2 of) x, y, z"))
  {
    ThresholdText(2, ["x", "y", "z"]);
    JoinThree("x", "y", "z", ", ");
    assert NatToString(2) == "2";
    assert "(" + "2" + " of) " + ("x" + ", " + "y" + ", " + "z") == "(2 of) x, y, z";
  }
}
