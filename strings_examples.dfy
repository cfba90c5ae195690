/** Worked instances of the string utilities (utils/strings.ts). */
module StringsExamples {
  import opened TypeLevel
  import opened Strings

  /** Empty pieces between adjacent tokens are kept. */
  lemma SplitKeepsEmptyPieces()
    ensures Split("a,b,,c", ",") == ["a", "b", "", "c"]
  {
    FirstOfChar("a,b,,c", ',', "a", "b,,c");
    FirstOfChar("b,,c", ',', "b", ",c");
    FirstOfChar(",c", ',', "", "c");
    NoChar("c", ',');
    SplitWithout("c", ",");
    SplitAt(",c", ",", "", "c");
    SplitAt("b,,c", ",", "b", ",c");
    SplitAt("a,b,,c", ",", "a", "b,,c");
    FourPieces("a", "b", "", "c");
  }

  lemma FourPieces<T>(a: T, b: T, c: T, d: T)
    ensures [a] + ([b] + ([c] + [d])) == [a, b, c, d]
  {
  }

  /** Text around a single group is emitted, the group without its parentheses. */
  lemma OneGroup()
    ensures SplitGroups("x(a)y", "(", ")", 0, "") == Val(["x", "a", "y"])
  {
    FirstOfChar("x(a)y", '(', "x", "a)y");
    InsideGroup();
    assert ["x"] + ["a", "y"] == ["x", "a", "y"];
  }

  lemma InsideGroup()
    ensures SplitGroups("a)y", "(", ")", 1, "") == Val(["a", "y"])
  {
    NoChar("a)y", '(');
    FirstOfChar("a)y", ')', "a", "y");
    TrailingText();
    assert "" + "a" == "a";
    assert ["a"] + ["y"] == ["a", "y"];
  }

  lemma TrailingText()
    ensures SplitGroups("y", "(", ")", 0, "") == Val(["y"])
  {
    NoChar("y", '(');
    NoChar("y", ')');
  }

  /** A nested group stays inside its outer group, parentheses included. */
  lemma NestedGroup()
    ensures SplitGroups("(a(b)c)", "(", ")", 0, "") == Val(["a(b)c"])
  {
    FirstOfChar("(a(b)c)", '(', "", "a(b)c)");
    OuterGroup();
  }

  lemma OuterGroup()
    ensures SplitGroups("a(b)c)", "(", ")", 1, "") == Val(["a(b)c"])
  {
    FirstOfChar("a(b)c)", '(', "a", "b)c)");
    OpenInside("a(b)c)", "(", ")", 1, "", "a", "b)c)");
    assert "" + "a" + "(" == "a(";
    InnerGroup();
  }

  lemma InnerGroup()
    ensures SplitGroups("b)c)", "(", ")", 2, "a(") == Val(["a(b)c"])
  {
    NoChar("b)c)", '(');
    FirstOfChar("b)c)", ')', "b", "c)");
    CloseInside("b)c)", "(", ")", 2, "a(", "b", "c)");
    assert "a(" + "b" + ")" == "a(b)";
    OuterClose();
  }

  lemma OuterClose()
    ensures SplitGroups("c)", "(", ")", 1, "a(b)") == Val(["a(b)c"])
  {
    NoChar("c)", '(');
    FirstOfChar("c)", ')', "c", "");
    CloseGroup("c)", "(", ")", "a(b)", "c", "");
    assert "a(b)" + "c" == "a(b)c";
    NoChar("", '(');
    NoChar("", ')');
    assert SplitGroups("", "(", ")", 0, "") == Val([]);
    assert ["a(b)c"] + [] == ["a(b)c"];
  }

  /**
   * Two adjacent groups: inside the first group the open token of the
   * second is found before the first group's close token, so the depth
   * never returns to 0 and the result is `never`.
   */
  lemma AdjacentGroups()
    ensures SplitGroups("(a)(b)", "(", ")", 0, "") == Never
  {
    FirstOfChar("(a)(b)", '(', "", "a)(b)");
    FirstOfChar("a)(b)", '(', "a)", "b)");
    NoChar("b)", '(');
    FirstOfChar("b)", ')', "b", "");
    NoChar("", '(');
    NoChar("", ')');
  }
}
