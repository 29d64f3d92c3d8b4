/** `STEP_Reader::GetName`: the name attribute of a label, streamed with a
    trailing line end, with line-end characters removed and structural or
    generated names blanked. */
module Names {
  import opened Wrappers
  import opened Kernel
  import opened StrTool

  /** The text of the label's name attribute; an empty string when the label
      has none. */
  function NameText(lbl: Label): string
  {
    match lbl.name
    case Some(text) => text
    case None => ""
  }

  /** The names the reader discards: the bare shape-type words. */
  predicate IsStructuralWord(s: string)
  {
    s == "COMPOUND" || s == "COMPSOLID" || s == "SOLID" || s == "SHELL"
  }

  /** The placeholder test as written: `find("=>[") == 0` and `find("]")`
      is the last index. */
  predicate IsPlaceholderTest(s: string)
  {
    Find(s, "=>[", 0) == Some(0) && Find(s, "]", 0) == Some(|s| - 1)
  }

  function GetName(lbl: Label): (name: string)
    ensures '\r' !in name && '\n' !in name
    ensures var s := LineEndsStripped(NameText(lbl));
      name == if IsStructuralWord(s) || IsPlaceholderName(s) then "" else s
  {
    // `ss << nameText << endl` appends the line end that is removed next.
    var streamed := NameText(lbl) + "\n";
    var s := RemoveCharacter(RemoveCharacter(streamed, "\r"), "\n");
    StreamedAndCleaned(NameText(lbl));
    PlaceholderTestMeaning(s);
    if IsStructuralWord(s) || IsPlaceholderTest(s) then "" else s
  }

  /** Reference definition: `s` without carriage returns and line feeds. */
  function LineEndsStripped(s: string): string
  {
    if s == [] then [] else (if s[0] == '\r' || s[0] == '\n' then [] else [s[0]]) + LineEndsStripped(s[1..])
  }

  /** What the placeholder test accepts, in plain terms: a string that starts
      with `=>[`, ends with `]` and has no other `]`. A `]` inside the
      brackets therefore keeps the name, so `=>[a]b]` is not blanked. */
  predicate IsPlaceholderName(s: string)
  {
    && |s| >= 4 && s[..3] == "=>[" && s[|s| - 1] == ']'
    && forall i :: 0 <= i < |s| - 1 ==> s[i] != ']'
  }

  lemma PlaceholderTestMeaning(s: string)
    ensures IsPlaceholderTest(s) <==> IsPlaceholderName(s)
  {
    if IsPlaceholderTest(s) {
      assert MatchAt(s, "=>[", 0);
      assert s[..3] == "=>[";
      var last := Find(s, "]", 0).value;
      assert MatchAt(s, "]", last);
      assert s[last..last + 1] == "]";
      assert s[last] == ']';
      assert last >= 3 by {
        forall i | 0 <= i < 3 ensures s[i] != ']' {
          assert s[i] == "=>["[i];
        }
      }
      forall i | 0 <= i < |s| - 1 ensures s[i] != ']' {
        assert !MatchAt(s, "]", i);
        assert s[i..i + 1] == [s[i]];
      }
    }
    if IsPlaceholderName(s) {
      assert MatchAt(s, "=>[", 0);
      assert Find(s, "=>[", 0) == Some(0);
      assert MatchAt(s, "]", |s| - 1) by {
        assert s[|s| - 1..|s|] == [s[|s| - 1]];
      }
      forall j | 0 <= j < |s| - 1 ensures !MatchAt(s, "]", j) {
        assert s[j..j + 1] == [s[j]];
      }
      var f := Find(s, "]", 0);
      assert f.Some?;
    }
  }

  /** Streaming the text with a line end and removing both line-end
      characters gives the stripped text, which has neither. */
  lemma StreamedAndCleaned(text: string)
    ensures var s := RemoveCharacter(RemoveCharacter(text + "\n", "\r"), "\n");
      s == LineEndsStripped(text) && '\r' !in s && '\n' !in s
  {
    RemoveLineEnds(text + "\n");
    LineEndsStrippedAppend(text, "\n");
    assert LineEndsStripped("\n") == [];
    LineEndsStrippedHasNone(text);
  }

  lemma {:induction false} RemoveLineEnds(s: string)
    ensures RemoveCharacter(RemoveCharacter(s, "\r"), "\n") == LineEndsStripped(s)
  {
    RemoveOneIsFilter(s, '\r');
    RemoveOneIsFilter(Without(s, '\r'), '\n');
    WithoutBoth(s);
  }

  lemma {:induction false} WithoutBoth(s: string)
    ensures Without(Without(s, '\r'), '\n') == LineEndsStripped(s)
    decreases |s|
  {
    if s != [] {
      WithoutBoth(s[1..]);
      if s[0] == '\r' {
        assert Without(s, '\r') == Without(s[1..], '\r');
      } else {
        assert Without(s, '\r') == [s[0]] + Without(s[1..], '\r');
        assert ([s[0]] + Without(s[1..], '\r'))[1..] == Without(s[1..], '\r');
      }
    }
  }

  lemma {:induction false} LineEndsStrippedAppend(a: string, b: string)
    ensures LineEndsStripped(a + b) == LineEndsStripped(a) + LineEndsStripped(b)
    decreases |a|
  {
    if a != [] {
      LineEndsStrippedAppend(a[1..], b);
      assert (a + b)[1..] == a[1..] + b;
    } else {
      assert a + b == b;
    }
  }

  lemma {:induction false} LineEndsStrippedHasNone(s: string)
    ensures '\r' !in LineEndsStripped(s) && '\n' !in LineEndsStripped(s)
    decreases |s|
  {
    if s != [] {
      LineEndsStrippedHasNone(s[1..]);
    }
  }
}
