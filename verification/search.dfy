/**
 * The question filter of the quiz list: the search text becomes a SQL LIKE
 * pattern by replacing every run of spaces with `%` and wrapping it in `%`.
 */
module Search {
  import opened Wrappers

  /**
   * `s.replace(/ +/g, "%")`, scanning left to right; `inRun` says whether the
   * character before `s` was a space already replaced by the current `%`.
   */
  function Collapse(s: string, inRun: bool): (r: string)
    ensures ' ' !in r
    ensures |r| <= |s|
    ensures ' ' !in s ==> r == s
    decreases |s|
  {
    if |s| == 0 then []
    else if s[0] == ' ' then
      (if inRun then [] else ['%']) + Collapse(s[1..], true)
    else [s[0]] + Collapse(s[1..], false)
  }

  /** The replacement applied to a whole search string. */
  function ReplaceSpaceRuns(s: string): string
  {
    Collapse(s, false)
  }

  /**
   * The LIKE pattern for a search; an absent or empty search means no filter.
   */
  function SearchPattern(search: Option<string>): (r: Option<string>)
    ensures r.Some? <==> search.Some? && search.value != ""
    ensures r.Some? ==> |r.value| >= 2 && r.value[0] == '%' && r.value[|r.value| - 1] == '%'
    ensures r.Some? ==> ' ' !in r.value
    ensures r.Some? ==> r.value == "%" + ReplaceChar(SqueezeSpaces(search.value), ' ', '%') + "%"
  {
    match search
    case None => None
    case Some(text) =>
      ReplaceSpaceRunsIsSqueeze(text);
      if text == "" then None else Some("%" + ReplaceSpaceRuns(text) + "%")
  }

  /** The characters that are neither a space nor `%`, in order. */
  function Letters(s: string): string
  {
    if |s| == 0 then []
    else if s[0] == ' ' || s[0] == '%' then Letters(s[1..])
    else [s[0]] + Letters(s[1..])
  }

  function Count(c: char, s: string): nat
  {
    if |s| == 0 then 0 else (if s[0] == c then 1 else 0) + Count(c, s[1..])
  }

  /** The number of maximal runs of spaces in `s`, counted at the last space of each run. */
  function RunEnds(s: string): nat
  {
    if |s| == 0 then 0
    else (if s[0] == ' ' && (|s| == 1 || s[1] != ' ') then 1 else 0) + RunEnds(s[1..])
  }

  /** Replacing space runs keeps every other character, in order. */
  lemma {:induction false} CollapseKeepsLetters(s: string, inRun: bool)
    ensures Letters(Collapse(s, inRun)) == Letters(s)
    decreases |s|
  {
    if |s| > 0 {
      CollapseKeepsLetters(s[1..], s[0] == ' ');
      var rest := Collapse(s[1..], s[0] == ' ');
      if s[0] == ' ' {
        if inRun {
          assert Collapse(s, inRun) == [] + rest;
          assert [] + rest == rest;
        } else {
          assert (['%'] + rest)[1..] == rest;
        }
      } else {
        assert ([s[0]] + rest)[1..] == rest;
      }
    }
  }

  /** Each run of spaces adds exactly one `%`, except a run already opened before `s`. */
  lemma {:induction false} CollapsePercentCount(s: string, inRun: bool)
    ensures Count('%', Collapse(s, inRun)) + (if inRun && |s| > 0 && s[0] == ' ' then 1 else 0)
      == Count('%', s) + RunEnds(s)
    decreases |s|
  {
    if |s| > 0 {
      CollapsePercentCount(s[1..], s[0] == ' ');
      var rest := Collapse(s[1..], s[0] == ' ');
      if s[0] == ' ' {
        if inRun {
          assert Collapse(s, inRun) == [] + rest;
          assert [] + rest == rest;
        } else {
          assert (['%'] + rest)[1..] == rest;
        }
      } else {
        assert ([s[0]] + rest)[1..] == rest;
      }
    }
  }

  /** Every run of spaces in a whole search string becomes one `%`. */
  lemma ReplaceSpaceRunsCounts(s: string)
    ensures Count('%', ReplaceSpaceRuns(s)) == Count('%', s) + RunEnds(s)
    ensures Letters(ReplaceSpaceRuns(s)) == Letters(s)
  {
    CollapsePercentCount(s, false);
    CollapseKeepsLetters(s, false);
  }

  /** Every occurrence of `from` written as `to`; every other character is kept. */
  function ReplaceChar(s: string, from: char, to: char): (r: string)
    ensures |r| == |s|
  {
    seq(|s|, i requires 0 <= i < |s| => if s[i] == from then to else s[i])
  }

  /** No two neighbouring characters are both spaces. */
  predicate SingleSpaced(s: string)
  {
    forall i :: 0 <= i < |s| - 1 ==> !(s[i] == ' ' && s[i + 1] == ' ')
  }

  lemma ReplaceCharCons(c: char, t: string, from: char, to: char)
    ensures ReplaceChar([c] + t, from, to) == [if c == from then to else c] + ReplaceChar(t, from, to)
  {
  }

  lemma SingleSpacedTail(s: string)
    requires |s| > 0 && SingleSpaced(s)
    ensures SingleSpaced(s[1..])
  {
    forall i | 0 <= i < |s[1..]| - 1
      ensures !(s[1..][i] == ' ' && s[1..][i + 1] == ' ')
    {
      assert s[1..][i] == s[i + 1] && s[1..][i + 1] == s[i + 2];
    }
  }

  /** On text without `%` and without doubled spaces, the replacement is undone by turning `%` back into spaces. */
  lemma {:induction false} CollapseRoundTrip(s: string, inRun: bool)
    requires '%' !in s && SingleSpaced(s)
    requires inRun ==> |s| == 0 || s[0] != ' '
    ensures ReplaceChar(Collapse(s, inRun), '%', ' ') == s
    decreases |s|
  {
    if |s| > 0 {
      SingleSpacedTail(s);
      assert s[0] == ' ' ==> |s| == 1 || s[1] != ' ';
      assert '%' !in s[1..];
      CollapseRoundTrip(s[1..], s[0] == ' ');
      var rest := Collapse(s[1..], s[0] == ' ');
      var c := if s[0] == ' ' then '%' else s[0];
      assert Collapse(s, inRun) == [c] + rest;
      ReplaceCharCons(c, rest, '%', ' ');
      assert s == [s[0]] + s[1..];
    }
  }

  lemma ReplaceSpaceRunsRoundTrip(s: string)
    requires '%' !in s && SingleSpaced(s)
    ensures ReplaceChar(ReplaceSpaceRuns(s), '%', ' ') == s
  {
    CollapseRoundTrip(s, false);
  }

  /** The text with every space that is followed by another space dropped: one space per run. */
  function SqueezeSpaces(s: string): string
  {
    if |s| == 0 then []
    else if |s| >= 2 && s[0] == ' ' && s[1] == ' ' then SqueezeSpaces(s[1..])
    else [s[0]] + SqueezeSpaces(s[1..])
  }

  /** Inside a run, a further space adds nothing; after the run, scanning goes on as at the start. */
  lemma CollapseInRun(t: string)
    requires |t| > 0
    ensures t[0] == ' ' ==> Collapse(t, true) == Collapse(t[1..], true)
    ensures t[0] != ' ' ==> Collapse(t, true) == Collapse(t, false)
  {
  }

  /**
   * The replacement on any search text, `%` included: squeeze every run of
   * spaces to one space, then write that space as `%`.
   */
  lemma {:induction false} ReplaceSpaceRunsIsSqueeze(s: string)
    ensures ReplaceSpaceRuns(s) == ReplaceChar(SqueezeSpaces(s), ' ', '%')
    decreases |s|
  {
    if |s| > 0 {
      var t := s[1..];
      ReplaceSpaceRunsIsSqueeze(t);
      if s[0] != ' ' {
        ReplaceCharCons(s[0], SqueezeSpaces(t), ' ', '%');
      } else if |s| == 1 {
        assert Collapse(s, false) == "%";
        assert SqueezeSpaces(s) == " ";
      } else {
        CollapseInRun(t);
        if s[1] == ' ' {
          assert Collapse(s, false) == Collapse(t, false);
        } else {
          assert Collapse(s, false) == ['%'] + Collapse(t, false);
          ReplaceCharCons(' ', SqueezeSpaces(t), ' ', '%');
        }
      }
    }
  }

  lemma ReplaceExample()
    ensures ReplaceSpaceRuns("a  b") == "a%b"
  {
    var s := "a  b";
    assert s[1..] == "  b" && s[1..][1..] == " b" && s[1..][1..][1..] == "b";
    assert Collapse("b", true) == "b";
    assert Collapse(" b", true) == "b";
    assert Collapse("  b", false) == "%b";
  }

  /** The search `"a  b"` becomes the pattern `"%a%b%"`; an empty search sets no filter. */
  lemma SearchPatternExample()
    ensures SearchPattern(Some("a  b")) == Some("%a%b%")
    ensures SearchPattern(Some("")) == None
  {
    ReplaceExample();
    assert "%" + "a%b" + "%" == "%a%b%";
  }
}
