/**
  * Fuzzy resolution of a short caller name ("title", "enabled?", "title_ui_element")
  * to one exact attribute, action or parameterised-attribute name of an element
  * (lib/AXElements/Element.rb, `matcher` and `constant_for`).
  *
  * The source builds the regular expression /<name>$/i from the short name with every
  * `_` and one trailing `?` deleted. Names are identifiers, so the expression matches
  * exactly the candidates whose ASCII-lower-cased form ends with the lower-cased
  * normalised name; that is the matching relation stated here.
  */
module NameMatch {
  import opened Wrappers

  /** ASCII case folding, as the `i` flag applies it to identifier characters. */
  function Lower(c: char): char
  {
    if 'A' <= c <= 'Z' then (c as int + 32) as char else c
  }

  function LowerAll(s: string): (r: string)
    ensures |r| == |s|
  {
    if s == [] then [] else [Lower(s[0])] + LowerAll(s[1..])
  }

  predicate EndsWith(s: string, suffix: string)
  {
    |suffix| <= |s| && s[|s| - |suffix|..] == suffix
  }

  /** The short name with every `_` deleted and a `?` deleted when it is the last character. */
  function Normalize(name: string): (r: string)
    ensures '_' !in r
    ensures |r| <= |name|
    ensures forall c :: c in r ==> c in name
  {
    if name == [] then []
    else
      var keep := if name[0] == '_' || (name[0] == '?' && |name| == 1) then [] else [name[0]];
      keep + Normalize(name[1..])
  }

  /** The candidate matches the short name: its folded form ends with the folded normalised name. */
  predicate Matches(name: string, candidate: string)
  {
    EndsWith(LowerAll(candidate), LowerAll(Normalize(name)))
  }

  /** Every candidate that matches, in candidate order (`find_all`). */
  function FindAll(name: string, candidates: seq<string>): (r: seq<string>)
    ensures |r| <= |candidates|
  {
    if candidates == [] then []
    else if Matches(name, candidates[0]) then [candidates[0]] + FindAll(name, candidates[1..])
    else FindAll(name, candidates[1..])
  }

  /**
    * `constant_for`: the first candidate that matches, or None. The source sorts the
    * matches by length but discards the sorted copy (Element.rb:240), so candidate
    * order alone decides. `ConstantForSpec` states what the result means.
    */
  function ConstantFor(name: string, candidates: seq<string>): (r: Option<string>)
    ensures r.Some? ==> r.value in candidates && Matches(name, r.value)
  {
    FindAllMembers(name, candidates);
    var matches := FindAll(name, candidates);
    if matches == [] then None else Some(matches[0])
  }

  /** `find_all` keeps exactly the candidates that match. */
  lemma {:induction false} FindAllMembers(name: string, candidates: seq<string>)
    ensures forall x :: x in FindAll(name, candidates) <==> x in candidates && Matches(name, x)
  {
    if candidates != [] {
      FindAllMembers(name, candidates[1..]);
      assert forall x :: x in candidates <==> x == candidates[0] || x in candidates[1..];
    }
  }

  /** The matches are empty exactly when no candidate matches; otherwise the first is the earliest match. */
  lemma {:induction false} FindAllFirst(name: string, candidates: seq<string>)
    ensures FindAll(name, candidates) == [] <==>
      forall i :: 0 <= i < |candidates| ==> !Matches(name, candidates[i])
    ensures FindAll(name, candidates) != [] ==>
      exists i :: 0 <= i < |candidates| && candidates[i] == FindAll(name, candidates)[0] &&
        Matches(name, candidates[i]) &&
        forall j :: 0 <= j < i ==> !Matches(name, candidates[j])
  {
    if candidates != [] && !Matches(name, candidates[0]) {
      FindAllFirst(name, candidates[1..]);
      var rest := FindAll(name, candidates[1..]);
      if rest != [] {
        var k :| 0 <= k < |candidates| - 1 && candidates[1..][k] == rest[0] &&
          Matches(name, candidates[1..][k]) &&
          forall j :: 0 <= j < k ==> !Matches(name, candidates[1..][j]);
        assert candidates[k + 1] == rest[0];
        assert forall j :: 0 <= j < k + 1 ==> !Matches(name, candidates[j]) by {
          forall j | 0 <= j < k + 1
            ensures !Matches(name, candidates[j])
          {
            if j > 0 {
              assert candidates[j] == candidates[1..][j - 1];
            }
          }
        }
      } else {
        assert forall i :: 0 <= i < |candidates| ==> !Matches(name, candidates[i]) by {
          forall i | 0 <= i < |candidates|
            ensures !Matches(name, candidates[i])
          {
            if i > 0 {
              assert candidates[i] == candidates[1..][i - 1];
            }
          }
        }
      }
    }
  }

  /**
    * What `constant_for` answers: None exactly when no candidate matches; otherwise a
    * candidate that matches and that no earlier candidate precedes as a match.
    */
  lemma ConstantForSpec(name: string, candidates: seq<string>)
    ensures ConstantFor(name, candidates).None? <==>
      forall i :: 0 <= i < |candidates| ==> !Matches(name, candidates[i])
    ensures ConstantFor(name, candidates).Some? ==>
      exists i :: 0 <= i < |candidates| && candidates[i] == ConstantFor(name, candidates).value &&
        Matches(name, candidates[i]) &&
        forall j :: 0 <= j < i ==> !Matches(name, candidates[j])
  {
    FindAllFirst(name, candidates);
  }

  /** Once a prefix of the candidates resolves the name, later candidates play no part. */
  lemma {:induction false} FindAllAppend(name: string, front: seq<string>, back: seq<string>)
    ensures FindAll(name, front + back) == FindAll(name, front) + FindAll(name, back)
  {
    if front == [] {
      assert front + back == back;
    } else {
      assert (front + back)[0] == front[0] && (front + back)[1..] == front[1..] + back;
      FindAllAppend(name, front[1..], back);
    }
  }

  lemma ConstantForPrefix(name: string, front: seq<string>, back: seq<string>)
    requires ConstantFor(name, front).Some?
    ensures ConstantFor(name, front + back) == ConstantFor(name, front)
  {
    FindAllAppend(name, front, back);
  }

  /** `_` anywhere but at the very end is noise: it never changes the normalised name. */
  lemma {:induction false} UnderscoreIsNoise(front: string, back: string)
    requires back != []
    ensures Normalize(front + "_" + back) == Normalize(front + back)
  {
    if front == [] {
      assert front + "_" + back == "_" + back && front + back == back;
      assert ("_" + back)[1..] == back;
    } else {
      assert (front + "_" + back)[1..] == front[1..] + "_" + back;
      assert (front + back)[1..] == front[1..] + back;
      UnderscoreIsNoise(front[1..], back);
    }
  }

  /** A predicate-style name resolves like the plain name: `enabled?` normalises as `enabled`. */
  lemma {:induction false} TrailingQuestionIsNoise(name: string)
    requires name == [] || name[|name| - 1] != '?'
    ensures Normalize(name + "?") == Normalize(name)
  {
    if name == [] {
    } else {
      assert (name + "?")[1..] == name[1..] + "?";
      TrailingQuestionIsNoise(name[1..]);
    }
  }

  /** A name with no `_` and no `?` is its own normal form. */
  lemma {:induction false} NormalizePlain(name: string)
    requires '_' !in name && '?' !in name
    ensures Normalize(name) == name
  {
    if name != [] {
      NormalizePlain(name[1..]);
    }
  }

  /** The string with every `_` deleted and nothing else changed. */
  function DropUnderscores(s: string): (r: string)
    ensures '_' !in r
    ensures |r| <= |s|
  {
    if s == [] then []
    else (if s[0] == '_' then [] else [s[0]]) + DropUnderscores(s[1..])
  }

  /**
    * The closed form of the normal name: delete one `?` if it is the last character, then
    * delete every `_`. A `?` anywhere else survives, so `a?_` normalises to `a?`.
    */
  lemma {:induction false} NormalizeClosedForm(name: string)
    ensures Normalize(name) ==
      DropUnderscores(if name != [] && name[|name| - 1] == '?' then name[..|name| - 1] else name)
  {
    if name != [] && |name| > 1 {
      var rest := name[1..];
      NormalizeClosedForm(rest);
      var stripped := if name[|name| - 1] == '?' then name[..|name| - 1] else name;
      var restStripped := if rest[|rest| - 1] == '?' then rest[..|rest| - 1] else rest;
      assert stripped == [name[0]] + restStripped;
      assert stripped[1..] == restStripped;
    }
  }

  /** A `?` that is not last is kept: `a?_` normalises to `a?`, not `a`. */
  lemma QuestionBeforeUnderscoreKept()
    ensures Normalize("a?_") == "a?"
  {
    NormalizeClosedForm("a?_");
  }

  lemma {:induction false} LowerAllAppend(a: string, b: string)
    ensures LowerAll(a + b) == LowerAll(a) + LowerAll(b)
  {
    if a == [] {
      assert a + b == b;
    } else {
      assert (a + b)[1..] == a[1..] + b;
      LowerAllAppend(a[1..], b);
    }
  }

  /** A candidate ending in (a case variant of) the normalised short name matches it. */
  lemma MatchesBySuffix(name: string, candidate: string, front: string, back: string)
    requires candidate == front + back
    requires LowerAll(back) == LowerAll(Normalize(name))
    ensures Matches(name, candidate)
  {
    LowerAllAppend(front, back);
  }

  /** A name that is too long to be a suffix of the candidate does not match it. */
  lemma TooLongToMatch(name: string, candidate: string)
    requires |Normalize(name)| > |candidate|
    ensures !Matches(name, candidate)
  {
  }

  /** The first candidate wins whenever it matches, whatever follows it. */
  lemma {:induction false} FirstCandidateWins(name: string, first: string, rest: seq<string>)
    requires Matches(name, first)
    ensures ConstantFor(name, [first] + rest) == Some(first)
  {
    assert ([first] + rest)[0] == first;
  }

  lemma FoldedTitle()
    ensures Normalize("title") == "title" && LowerAll("title") == "title"
    ensures LowerAll("Title") == "title"
  {
    NormalizePlain("title");
    UpperTitle();
  }

  lemma UpperTitle()
    ensures LowerAll("Title") == "title"
  {
  }

  lemma FoldedWindow()
    ensures Normalize("window") == "window" && LowerAll("window") == "window"
    ensures LowerAll("Window") == "window"
  {
    NormalizePlain("window");
    UpperWindow();
  }

  lemma UpperWindow()
    ensures LowerAll("Window") == "window"
  {
  }

  lemma FoldedChildren()
    ensures Normalize("children") == "children" && LowerAll("children") == "children"
    ensures LowerAll("Children") == "children"
  {
    NormalizePlain("children");
    UpperChildren();
  }

  lemma UpperChildren()
    ensures LowerAll("Children") == "children"
  {
    LowerAllAppend("Chil", "dren");
    assert "Chil" + "dren" == "Children";
  }

  /** The short name "title" resolves to the exact "AXTitle", not to "AXTitleUIElement". */
  lemma TitleResolvesToAXTitle()
    ensures ConstantFor("title", ["AXTitle", "AXTitleUIElement"]) == Some("AXTitle")
  {
    FoldedTitle();
    MatchesBySuffix("title", "AXTitle", "AX", "Title");
    FirstCandidateWins("title", "AXTitle", ["AXTitleUIElement"]);
  }

  lemma WindowMatchesBoth()
    ensures Matches("window", "AX" + "Window") && Matches("window", "AXMain" + "Window")
  {
    FoldedWindow();
    MatchesBySuffix("window", "AX" + "Window", "AX", "Window");
    MatchesBySuffix("window", "AXMain" + "Window", "AXMain", "Window");
  }

  /**
    * Length plays no part: "window" resolves to the longer "AXMainWindow" when it comes
    * first, although the shorter "AXWindow" matches as well.
    */
  lemma FirstMatchNotShortest()
    ensures Matches("window", "AX" + "Window") && |"AX" + "Window"| < |"AXMain" + "Window"|
    ensures ConstantFor("window", ["AXMain" + "Window", "AX" + "Window"]) == Some("AXMain" + "Window")
  {
    WindowMatchesBoth();
    FirstCandidateWins("window", "AXMain" + "Window", ["AX" + "Window"]);
    assert ["AXMain" + "Window"] + ["AX" + "Window"] == ["AXMain" + "Window", "AX" + "Window"];
  }

  /** The exact name of the children attribute, "AXChildren", answers to the short name "children". */
  lemma ChildrenMatchesAXChildren()
    ensures Matches("children", "AX" + "Children")
  {
    FoldedChildren();
    MatchesBySuffix("children", "AX" + "Children", "AX", "Children");
  }
}
