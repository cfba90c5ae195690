/**
 * String utilities (utils/strings.ts): splitting on a token, splitting into
 * open/close delimited groups, and counting token occurrences.  All of them
 * rest on how a template literal `${infer Left}${Token}${infer Right}` is
 * inferred, which `FirstOccurrence` models.
 */
module Strings {
  import opened TypeLevel

  /** A string cut around one occurrence of a token. */
  datatype Cut = Cut(left: string, right: string)

  predicate OccursAt(s: string, t: string, k: int)
  {
    0 <= k && k + |t| <= |s| && s[k..k + |t|] == t
  }

  /** `t` occurs somewhere inside `s`. */
  predicate Contains(s: string, t: string)
  {
    exists k :: 0 <= k <= |s| && OccursAt(s, t, k)
  }

  /** The first index at or after `i` where `t` occurs. */
  function FindFrom(s: string, t: string, i: nat): (r: Option<nat>)
    requires i <= |s|
    ensures r.Some? ==> i <= r.value <= |s| && OccursAt(s, t, r.value)
    ensures r.Some? ==> forall k :: i <= k < r.value ==> !OccursAt(s, t, k)
    ensures r.None? ==> forall k :: i <= k ==> !OccursAt(s, t, k)
    decreases |s| - i
  {
    if OccursAt(s, t, i) then Some(i)
    else if i == |s| then None
    else FindFrom(s, t, i + 1)
  }

  /**
   * `S extends `${infer Left}${T}${infer Right}``.  For a non-empty token,
   * Left is the shortest prefix followed by the token (its first
   * occurrence).  For the empty token the pattern has two adjacent inferred
   * parts, and the first one takes exactly one character.
   */
  function FirstOccurrence(s: string, t: string): (r: Option<Cut>)
    ensures r.Some? ==> s == r.value.left + t + r.value.right && |r.value.right| < |s|
    ensures r.Some? && t != "" ==> forall k :: 0 <= k < |r.value.left| ==> !OccursAt(s, t, k)
    ensures r.None? ==> s != "" ==> t != "" && !Contains(s, t)
  {
    if t == "" then
      if s == "" then None else Some(Cut(s[..1], s[1..]))
    else
      match FindFrom(s, t, 0)
      case Some(i) =>
        assert s == s[..i] + t + s[i + |t|..];
        Some(Cut(s[..i], s[i + |t|..]))
      case None => None
  }

  /** `Split<Original, Token>`. */
  function Split(s: string, t: string): seq<string>
    decreases |s|
  {
    match FirstOccurrence(s, t)
    case Some(cut) => [cut.left] + Split(cut.right, t)
    case None => [s]
  }

  /** The first piece of a split, when the token occurs. */
  lemma SplitAt(s: string, t: string, left: string, right: string)
    requires FirstOccurrence(s, t) == Some(Cut(left, right))
    ensures Split(s, t) == [left] + Split(right, t)
  {
  }

  /** A split of a text without the token is the text alone. */
  lemma SplitWithout(s: string, t: string)
    requires FirstOccurrence(s, t) == None
    ensures Split(s, t) == [s]
  {
  }

  /** The pieces glued back together with the token between them. */
  function Join(pieces: seq<string>, t: string): string
  {
    if |pieces| <= 1 then (if pieces == [] then "" else pieces[0])
    else pieces[0] + t + Join(pieces[1..], t)
  }

  /** Joining the pieces of a split with the token gives back the original. */
  lemma {:induction false} SplitJoin(s: string, t: string)
    ensures |Split(s, t)| > 0
    ensures Join(Split(s, t), t) == s
    decreases |s|
  {
    match FirstOccurrence(s, t)
    case Some(cut) =>
      SplitJoin(cut.right, t);
      assert Split(s, t)[1..] == Split(cut.right, t);
    case None =>
  }

  /** No piece of a split contains the (non-empty) token. */
  lemma {:induction false} SplitPiecesClean(s: string, t: string)
    requires t != ""
    ensures forall i :: 0 <= i < |Split(s, t)| ==> !Contains(Split(s, t)[i], t)
    decreases |s|
  {
    match FirstOccurrence(s, t)
    case Some(cut) =>
      SplitPiecesClean(cut.right, t);
      LeftClean(s, t, cut);
      var pieces := Split(s, t);
      assert pieces == [cut.left] + Split(cut.right, t);
      forall i | 0 <= i < |pieces| ensures !Contains(pieces[i], t) {
        if i > 0 {
          assert pieces[i] == Split(cut.right, t)[i - 1];
        }
      }
    case None =>
  }

  /** The text before the first occurrence of a non-empty token does not contain it. */
  lemma LeftClean(s: string, t: string, cut: Cut)
    requires t != "" && FirstOccurrence(s, t) == Some(cut)
    ensures !Contains(cut.left, t)
  {
    forall k | 0 <= k <= |cut.left| && OccursAt(cut.left, t, k) ensures false {
      assert s[k..k + |t|] == cut.left[k..k + |t|];
      assert OccursAt(s, t, k);
    }
  }

  /** `CountTokens<Original, Token, N>`: N plus the leftmost non-overlapping occurrences. */
  function CountTokens(s: string, t: string, n: int): int
    decreases |s|
  {
    match FirstOccurrence(s, t)
    case Some(cut) => CountTokens(cut.right, t, n + 1)
    case None => n
  }

  /** A split has one more piece than the token has occurrences. */
  lemma {:induction false} SplitCount(s: string, t: string, n: int)
    ensures CountTokens(s, t, n) == n + |Split(s, t)| - 1
    decreases |s|
  {
    match FirstOccurrence(s, t)
    case Some(cut) => SplitCount(cut.right, t, n + 1);
    case None =>
  }

  /** A string without the token counts zero occurrences of it. */
  lemma CountWithoutToken(s: string, t: string)
    requires t != "" && !Contains(s, t)
    ensures CountTokens(s, t, 0) == 0
  {
    assert FindFrom(s, t, 0).None?;
  }

  /** `IsPartialGroup`: the open and close tokens occur unequally often. */
  function IsPartialGroup(s: string, open: string, close: string): bool
  {
    CountTokens(s, open, 0) != CountTokens(s, close, 0)
  }

  /** A group is partial exactly when splitting on each token gives different piece counts. */
  lemma PartialGroupBySplit(s: string, open: string, close: string)
    ensures IsPartialGroup(s, open, close) <==> |Split(s, open)| != |Split(s, close)|
  {
    SplitCount(s, open, 0);
    SplitCount(s, close, 0);
  }

  /** `[X, ...Rest]` with Rest never is never. */
  function Prepend(x: string, rest: Ty<seq<string>>): Ty<seq<string>>
  {
    match rest
    case Never => Never
    case Val(r) => Val([x] + r)
  }

  /**
   * `SplitGroups<Original, OpenToken, CloseToken, N, C>`: N is the nesting
   * depth and C the text of the current group gathered so far.  The open
   * token is looked for first, across the whole remaining string.
   */
  function SplitGroups(s: string, open: string, close: string, n: int, acc: string): Ty<seq<string>>
    decreases |s|
  {
    match FirstOccurrence(s, open)
    case Some(o) =>
      if n == 0 then
        var rest := SplitGroups(o.right, open, close, 1, "");
        if o.left == "" then rest else Prepend(o.left, rest)
      else
        SplitGroups(o.right, open, close, n + 1, acc + o.left + open)
    case None =>
      match FirstOccurrence(s, close)
      case Some(c) =>
        if n == 1 then Prepend(acc + c.left, SplitGroups(c.right, open, close, 0, ""))
        else SplitGroups(c.right, open, close, n - 1, acc + c.left + close)
      case None =>
        if acc == "" then Val(if s == "" then [] else [s]) else Never
  }

  /** With neither token present, the whole string is one piece (none if empty). */
  lemma SplitGroupsNoTokens(s: string, open: string, close: string)
    requires open != "" && close != ""
    requires !Contains(s, open) && !Contains(s, close)
    ensures SplitGroups(s, open, close, 0, "") == Val(if s == "" then [] else [s])
  {
    NoOccurrence(s, open);
    NoOccurrence(s, close);
  }

  /**
   * Unbalanced groups: text still gathered when neither token is left
   * means a group was never closed, and the result is `never`.
   */
  lemma SplitGroupsLeftover(s: string, open: string, close: string, n: int, acc: string)
    requires open != "" && close != ""
    requires !Contains(s, open) && !Contains(s, close)
    requires acc != ""
    ensures SplitGroups(s, open, close, n, acc) == Never
  {
    NoOccurrence(s, open);
    NoOccurrence(s, close);
  }

  /**
   * An inner group that is never closed: the inner open token joins the
   * gathered text, so text is left over and the result is `never`.
   */
  lemma SplitGroupsUnclosedInner(open: string, close: string, t: string)
    requires open != "" && close != ""
    requires !Contains(t, open) && !Contains(t, close)
    ensures SplitGroups(open + open + t, open, close, 0, "") == Never
  {
    ShortFree(open[..|open| - 1], open);
    assert open + open + t == "" + open + (open + t);
    FirstAt(open + open + t, open, "", open + t);
    assert open + t == "" + open + t;
    FirstAt(open + t, open, "", t);
    SplitGroupsLeftover(t, open, close, 2, "" + "" + open);
  }

  /**
   * An outer group that is never closed gathers nothing at depth 1, so its
   * text comes back as an ordinary piece: only unbalanced text gathered
   * inside a group is reported.
   */
  lemma SplitGroupsUnclosedOuter(open: string, close: string, t: string)
    requires open != "" && close != ""
    requires !Contains(t, open) && !Contains(t, close)
    ensures SplitGroups(open + t, open, close, 0, "") == Val(if t == "" then [] else [t])
  {
    ShortFree(open[..|open| - 1], open);
    assert open + t == "" + open + t;
    FirstAt(open + t, open, "", t);
    NoOccurrence(t, open);
    NoOccurrence(t, close);
  }

  /**
   * Text before the first open token is emitted when non-empty, and the
   * text of a top-level group is emitted without its delimiters.  The
   * group closes at the first close token only when no open token follows
   * anywhere in the remainder.
   */
  lemma SplitGroupsTopLevel(s: string, open: string, close: string, lead: string, group: string, rest: string)
    requires open != "" && close != ""
    requires s == lead + open + group + close + rest
    requires !Contains(lead + open[..|open| - 1], open)
    requires !Contains(group + close + rest, open)
    requires !Contains(group + close[..|close| - 1], close)
    ensures SplitGroups(s, open, close, 0, "")
         == var tail := Prepend(group, SplitGroups(rest, open, close, 0, ""));
            if lead == "" then tail else Prepend(lead, tail)
  {
    var after := group + close + rest;
    FirstAt(s, open, lead, after);
    FirstAt(after, close, group, rest);
    NoOccurrence(after, open);
    assert "" + group == group;
    assert SplitGroups(after, open, close, 1, "") == Prepend(group, SplitGroups(rest, open, close, 0, ""));
  }

  /** An open token inside a group deepens it and joins the group's text. */
  lemma OpenInside(s: string, open: string, close: string, n: int, acc: string, left: string, right: string)
    requires n != 0 && FirstOccurrence(s, open) == Some(Cut(left, right))
    ensures SplitGroups(s, open, close, n, acc) == SplitGroups(right, open, close, n + 1, acc + left + open)
  {
  }

  /** A close token below depth 1 closes a nested group and joins the group's text. */
  lemma CloseInside(s: string, open: string, close: string, n: int, acc: string, left: string, right: string)
    requires n != 1 && FirstOccurrence(s, open) == None && FirstOccurrence(s, close) == Some(Cut(left, right))
    ensures SplitGroups(s, open, close, n, acc) == SplitGroups(right, open, close, n - 1, acc + left + close)
  {
  }

  /** A close token at depth 1 ends the group and emits its text. */
  lemma CloseGroup(s: string, open: string, close: string, acc: string, left: string, right: string)
    requires FirstOccurrence(s, open) == None && FirstOccurrence(s, close) == Some(Cut(left, right))
    ensures SplitGroups(s, open, close, 1, acc) == Prepend(acc + left, SplitGroups(right, open, close, 0, ""))
  {
  }

  /**
   * A group holding one nested group is emitted whole: the inner open
   * token raises the depth to 2, the inner close lowers it back to 1 and
   * both stay in the group's text, and the outer close ends the group.
   */
  lemma SplitGroupsNested(s: string, open: string, close: string,
                          lead: string, a: string, b: string, c: string, rest: string)
    requires open != "" && close != ""
    requires s == lead + open + a + open + b + close + c + close + rest
    requires !Contains(lead + open[..|open| - 1], open)
    requires !Contains(a + open[..|open| - 1], open)
    requires !Contains(b + close + c + close + rest, open)
    requires !Contains(c + close + rest, open)
    requires !Contains(b + close[..|close| - 1], close)
    requires !Contains(c + close[..|close| - 1], close)
    ensures SplitGroups(s, open, close, 0, "")
         == var tail := Prepend(a + open + b + close + c, SplitGroups(rest, open, close, 0, ""));
            if lead == "" then tail else Prepend(lead, tail)
  {
    var inner := c + close + rest;
    var deeper := b + close + inner;
    var group := a + open + deeper;
    assert deeper == b + close + c + close + rest;
    assert s == lead + open + group;
    FirstAt(s, open, lead, group);
    FirstAt(group, open, a, deeper);
    NoOccurrence(deeper, open);
    FirstAt(deeper, close, b, inner);
    NoOccurrence(inner, open);
    FirstAt(inner, close, c, rest);
    var acc := "" + a + open;
    OpenInside(group, open, close, 1, "", a, deeper);
    CloseInside(deeper, open, close, 2, acc, b, inner);
    CloseGroup(inner, open, close, acc + b + close, c, rest);
    EmptyFirst(a);
  }

  lemma EmptyFirst(x: string)
    ensures "" + x == x
  {
  }

  /** A string shorter than the token cannot contain it. */
  lemma ShortFree(x: string, t: string)
    requires |x| < |t|
    ensures !Contains(x, t)
  {
  }

  lemma NoOccurrence(s: string, t: string)
    requires t != "" && !Contains(s, t)
    ensures FirstOccurrence(s, t) == None
  {
  }

  /** The cut at the first occurrence, when the prefix before it is free of the token. */
  lemma FirstAt(s: string, t: string, left: string, right: string)
    requires t != "" && s == left + t + right
    requires !Contains(left + t[..|t| - 1], t)
    ensures FirstOccurrence(s, t) == Some(Cut(left, right))
  {
    assert OccursAt(s, t, |left|);
    var prefix := left + t[..|t| - 1];
    forall k | 0 <= k < |left| ensures !OccursAt(s, t, k) {
      forall j | k <= j < k + |t| ensures s[j] == prefix[j] {
        if j >= |left| {
          assert s[j] == t[j - |left|];
        }
      }
      assert s[k..k + |t|] == prefix[k..k + |t|];
      assert !OccursAt(prefix, t, k);
    }
    var r := FindFrom(s, t, 0);
    assert r.Some?;
    assert r.value == |left|;
    assert s[..|left|] == left;
    assert s[|left| + |t|..] == right;
  }

  /** The cut at a one-character token, when the prefix before it is free of that character. */
  lemma FirstOfChar(s: string, ch: char, left: string, right: string)
    requires s == left + [ch] + right && ch !in left
    ensures FirstOccurrence(s, [ch]) == Some(Cut(left, right))
  {
    forall k | 0 <= k < |left| ensures !OccursAt(left, [ch], k) {
      assert left[k..k + 1] == [left[k]];
    }
    assert left + [ch][..0] == left;
    FirstAt(s, [ch], left, right);
  }

  /** A one-character token that does not occur is not found. */
  lemma NoChar(s: string, ch: char)
    requires ch !in s
    ensures FirstOccurrence(s, [ch]) == None
  {
    forall k | 0 <= k < |s| ensures !OccursAt(s, [ch], k) {
      assert s[k..k + 1] == [s[k]];
    }
    NoOccurrence(s, [ch]);
  }
}
