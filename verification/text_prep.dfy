/** `preprocess_text`: a space after every sentence mark, then surrounding
    whitespace stripped. */
module TextPrep {

  /** U+104B MYANMAR SIGN SECTION, the Burmese full stop. */
  const MyanmarSection: char := '\U{104B}'
  const FullStop: char := '.'

  predicate IsSentenceMark(c: char) {
    c == MyanmarSection || c == FullStop
  }

  /** Python's `str.isspace` for one character, the set `str.strip()`
      removes: tab through carriage return, the information separators
      U+1C-U+1F, space, U+85, no-break space and the Unicode space
      separators, line and paragraph separators. */
  predicate IsSpace(c: char) {
    || c == ' '
    || '\t' <= c <= '\r'
    || '\U{1C}' <= c <= '\U{1F}'
    || c == '\U{85}' || c == '\U{A0}' || c == '\U{1680}'
    || '\U{2000}' <= c <= '\U{200A}'
    || c == '\U{2028}' || c == '\U{2029}'
    || c == '\U{202F}' || c == '\U{205F}' || c == '\U{3000}'
  }

  predicate AllSpace(s: string) {
    forall k :: 0 <= k < |s| ==> IsSpace(s[k])
  }

  /** The characters of `s` that are not whitespace, in order. */
  function NonSpace(s: string): string {
    if s == [] then []
    else (if IsSpace(s[0]) then [] else [s[0]]) + NonSpace(s[1..])
  }

  /** Every occurrence of `c` in `s` is immediately followed by a space. */
  predicate SpacedAfter(s: string, c: char) {
    forall k :: 0 <= k < |s| && s[k] == c ==> k + 1 < |s| && s[k + 1] == ' '
  }

  /** `s.replace(mark, mark + " ")` for a one-character `mark`. */
  function SpaceAfter(s: string, mark: char): string {
    if s == [] then []
    else (if s[0] == mark then [mark, ' '] else [s[0]]) + SpaceAfter(s[1..], mark)
  }

  /** Undoes `SpaceAfter`: drops the space that follows each `mark`. */
  function DropSpaceAfter(s: string, mark: char): string {
    if s == [] then []
    else if s[0] == mark && |s| >= 2 && s[1] == ' ' then [mark] + DropSpaceAfter(s[2..], mark)
    else [s[0]] + DropSpaceAfter(s[1..], mark)
  }

  /** `str.lstrip()`: drops leading whitespace. */
  function TrimStart(s: string): string {
    if s != [] && IsSpace(s[0]) then TrimStart(s[1..]) else s
  }

  /** `str.rstrip()`: drops trailing whitespace. */
  function TrimEnd(s: string): string {
    if s != [] && IsSpace(s[|s| - 1]) then TrimEnd(s[..|s| - 1]) else s
  }

  /** `str.strip()`. */
  function Strip(s: string): string {
    TrimEnd(TrimStart(s))
  }

  /** The two `replace` calls of `preprocess_text`: a space after every
      section mark, then after every full stop. */
  function Expand(text: string): string {
    SpaceAfter(SpaceAfter(text, MyanmarSection), FullStop)
  }

  /** `preprocess_text`: the result has no whitespace at either end, has
      the same non-whitespace characters as the input, and so is empty
      exactly when the input is all whitespace. Removing the space after
      each mark gives back the stripped input, so nothing else changes. */
  function Preprocess(text: string): (r: string)
    ensures r == [] || (!IsSpace(r[0]) && !IsSpace(r[|r| - 1]))
    ensures NonSpace(r) == NonSpace(text)
    ensures r == [] <==> AllSpace(text)
    ensures DropSpaceAfter(DropSpaceAfter(r, FullStop), MyanmarSection) == Strip(text)
  {
    var e := Expand(text);
    ExpandStripUndo(text);
    StripTrimmed(e);
    StripNonSpace(e);
    ExpandNonSpace(text);
    TrimmedEmpty(Strip(e));
    NonSpaceEmpty(text);
    Strip(e)
  }

  // ---------------------------------------------------------------------
  // Properties
  // ---------------------------------------------------------------------

  /** A text has no non-whitespace characters exactly when it is all
      whitespace. */
  lemma {:induction false} NonSpaceEmpty(s: string)
    ensures NonSpace(s) == [] <==> AllSpace(s)
  {
    if s != [] {
      NonSpaceEmpty(s[1..]);
      if AllSpace(s[1..]) && IsSpace(s[0]) {
        assert forall k :: 0 <= k < |s| ==> k == 0 || s[k] == s[1..][k - 1];
      }
    }
  }

  /** `lstrip` removes a whitespace prefix and stops at the first other
      character. */
  lemma {:induction false} TrimStartShape(s: string)
    ensures |TrimStart(s)| <= |s| && TrimStart(s) == s[|s| - |TrimStart(s)|..]
    ensures AllSpace(s[..|s| - |TrimStart(s)|])
    ensures TrimStart(s) == [] || !IsSpace(TrimStart(s)[0])
  {
    if s != [] && IsSpace(s[0]) {
      TrimStartShape(s[1..]);
      var n := |s| - |TrimStart(s)|;
      assert s[1..][..n - 1] == s[1..n];
      assert forall k :: 0 <= k < n ==> k == 0 || s[..n][k] == s[1..][..n - 1][k - 1];
    }
  }

  /** `rstrip` removes a whitespace suffix and stops at the last other
      character. */
  lemma {:induction false} TrimEndShape(s: string)
    ensures |TrimEnd(s)| <= |s| && TrimEnd(s) == s[..|TrimEnd(s)|]
    ensures AllSpace(s[|TrimEnd(s)|..])
    ensures TrimEnd(s) == [] || !IsSpace(TrimEnd(s)[|TrimEnd(s)| - 1])
  {
    if s != [] && IsSpace(s[|s| - 1]) {
      var t := s[..|s| - 1];
      TrimEndShape(t);
      var n := |TrimEnd(s)|;
      assert s[n..] == t[n..] + [s[|s| - 1]];
    }
  }

  lemma {:induction false} NonSpaceConcat(a: string, b: string)
    ensures NonSpace(a + b) == NonSpace(a) + NonSpace(b)
    decreases |a|
  {
    if a != [] {
      assert (a + b)[1..] == a[1..] + b;
      NonSpaceConcat(a[1..], b);
    } else {
      assert a + b == b;
    }
  }

  /** Removing the inserted space gives the text back. */
  lemma {:induction false} DropSpaceAfterInverse(s: string, mark: char)
    requires mark != ' '
    ensures DropSpaceAfter(SpaceAfter(s, mark), mark) == s
  {
    if s != [] {
      DropSpaceAfterInverse(s[1..], mark);
      var t := SpaceAfter(s[1..], mark);
      if s[0] == mark {
        assert SpaceAfter(s, mark) == [mark, ' '] + t;
        assert ([mark, ' '] + t)[2..] == t;
      } else {
        assert SpaceAfter(s, mark) == [s[0]] + t;
        assert ([s[0]] + t)[1..] == t;
      }
    }
  }

  /** Inserting spaces changes only whitespace. */
  lemma {:induction false} SpaceAfterNonSpace(s: string, mark: char)
    requires !IsSpace(mark)
    ensures NonSpace(SpaceAfter(s, mark)) == NonSpace(s)
  {
    if s != [] {
      SpaceAfterNonSpace(s[1..], mark);
      var head := if s[0] == mark then [mark, ' '] else [s[0]];
      NonSpaceConcat(head, SpaceAfter(s[1..], mark));
      assert NonSpace(head) == NonSpace([s[0]]) by {
        if s[0] == mark {
          assert [mark, ' '][1..] == [' '];
          assert NonSpace([' ']) == [] by { assert [' '][1..] == []; }
        }
      }
      assert [s[0]][1..] == [];
    }
  }

  lemma SpaceAfterHead(s: string, mark: char)
    requires s != [] && s[0] != mark
    ensures SpaceAfter(s, mark) != [] && SpaceAfter(s, mark)[0] == s[0]
  {
  }

  /** After the insertion every `mark` is followed by a space, and every
      other character `c` that already was stays so. */
  lemma {:induction false} SpaceAfterSpaced(s: string, mark: char, c: char)
    requires mark != ' ' && c != ' '
    requires c == mark || SpacedAfter(s, c)
    ensures SpacedAfter(SpaceAfter(s, mark), c)
  {
    if s != [] {
      var t := SpaceAfter(s[1..], mark);
      assert c == mark || SpacedAfter(s[1..], c) by {
        if c != mark {
          forall k | 0 <= k < |s[1..]| && s[1..][k] == c
            ensures k + 1 < |s[1..]| && s[1..][k + 1] == ' '
          {
            assert s[k + 1] == c;
          }
        }
      }
      SpaceAfterSpaced(s[1..], mark, c);
      var head := if s[0] == mark then [mark, ' '] else [s[0]];
      var r := head + t;
      assert SpaceAfter(s, mark) == r;
      forall k | 0 <= k < |r| && r[k] == c
        ensures k + 1 < |r| && r[k + 1] == ' '
      {
        if k >= |head| {
          assert r[k] == t[k - |head|];
        } else if s[0] != mark {
          assert k == 0 && s[0] == c && c != mark;
          assert s[1] == ' ';
          SpaceAfterHead(s[1..], mark);
        }
      }
    }
  }

  /** A sentence mark inside the expanded text is always followed by a
      space; only the pass over full stops and the pass over section marks
      insert them, and neither undoes the other. */
  lemma ExpansionSpaced(text: string)
    ensures SpacedAfter(Expand(text), MyanmarSection)
    ensures SpacedAfter(Expand(text), FullStop)
  {
    var e1 := SpaceAfter(text, MyanmarSection);
    SpaceAfterSpaced(text, MyanmarSection, MyanmarSection);
    SpaceAfterSpaced(e1, FullStop, MyanmarSection);
    SpaceAfterSpaced(e1, FullStop, FullStop);
  }

  /** Stripping yields a middle slice of its input, starting at `lo`,
      with only whitespace before and after it. */
  lemma StripSlice(s: string, lo: int)
    requires lo == |s| - |TrimStart(s)|
    ensures var r := Strip(s);
      && 0 <= lo && lo + |r| <= |s| && r == s[lo..lo + |r|]
      && AllSpace(s[..lo]) && AllSpace(s[lo + |r|..])
  {
    TrimStartShape(s);
    var u := TrimStart(s);
    TrimEndShape(u);
    var r := TrimEnd(u);
    assert r == s[lo..lo + |r|];
    assert s[lo + |r|..] == u[|r|..];
  }

  lemma NonSpaceFramed(a: string, b: string, c: string)
    requires AllSpace(a) && AllSpace(c)
    ensures NonSpace(a + b + c) == NonSpace(b)
  {
    NonSpaceEmpty(a);
    NonSpaceEmpty(c);
    NonSpaceConcat(a + b, c);
    NonSpaceConcat(a, b);
  }

  lemma StripNonSpace(s: string)
    ensures NonSpace(Strip(s)) == NonSpace(s)
  {
    var lo := |s| - |TrimStart(s)|;
    StripSlice(s, lo);
    var r := Strip(s);
    var tail := s[lo + |r|..];
    assert s == s[..lo] + r + tail;
    NonSpaceFramed(s[..lo], r, tail);
  }

  /** `str.strip()` leaves no whitespace at either end. */
  lemma StripTrimmed(s: string)
    ensures var r := Strip(s);
      r == [] || (!IsSpace(r[0]) && !IsSpace(r[|r| - 1]))
  {
    var u := TrimStart(s);
    var r := TrimEnd(u);
    TrimStartShape(s);
    TrimEndShape(u);
    if r != [] {
      assert r[0] == u[0];
    }
  }

  /** Every sentence mark of the result, except one in last position, is
      followed by a space. */
  lemma PreprocessMarksSpaced(text: string)
    ensures var r := Preprocess(text);
      forall k :: 0 <= k < |r| - 1 && IsSentenceMark(r[k]) ==> r[k + 1] == ' '
  {
    var e := Expand(text);
    ExpansionSpaced(text);
    var r := Strip(e);
    var lo := |e| - |TrimStart(e)|;
    StripSlice(e, lo);
    forall k | 0 <= k < |r| - 1 && IsSentenceMark(r[k])
      ensures r[k + 1] == ' '
    {
      assert r[k] == e[lo + k] && r[k + 1] == e[lo + k + 1];
    }
  }

  /** The two `replace` calls change whitespace only. */
  lemma ExpandNonSpace(text: string)
    ensures NonSpace(Expand(text)) == NonSpace(text)
  {
    SpaceAfterNonSpace(text, MyanmarSection);
    SpaceAfterNonSpace(SpaceAfter(text, MyanmarSection), FullStop);
  }

  /** A text with no whitespace at either end is empty exactly when it has
      no non-whitespace characters. */
  lemma TrimmedEmpty(r: string)
    requires r == [] || !IsSpace(r[0])
    ensures r == [] <==> NonSpace(r) == []
  {
    if r != [] {
      assert r == [r[0]] + r[1..];
      NonSpaceConcat([r[0]], r[1..]);
      assert [r[0]][1..] == [];
    }
  }

  // ---------------------------------------------------------------------
  // Undoing the normalisation
  // ---------------------------------------------------------------------

  lemma {:induction false} SpaceAfterConcat(a: string, b: string, mark: char)
    ensures SpaceAfter(a + b, mark) == SpaceAfter(a, mark) + SpaceAfter(b, mark)
    decreases |a|
  {
    if a != [] {
      assert (a + b)[1..] == a[1..] + b;
      SpaceAfterConcat(a[1..], b, mark);
    } else {
      assert a + b == b;
    }
  }

  /** Whitespace contains no mark, so the insertion leaves it alone. */
  lemma {:induction false} SpaceAfterAllSpace(w: string, mark: char)
    requires AllSpace(w) && !IsSpace(mark)
    ensures SpaceAfter(w, mark) == w
    decreases |w|
  {
    if w != [] {
      assert AllSpace(w[1..]) by {
        forall k | 0 <= k < |w[1..]| ensures IsSpace(w[1..][k]) {
          assert w[1..][k] == w[k + 1];
        }
      }
      SpaceAfterAllSpace(w[1..], mark);
      assert w == [w[0]] + w[1..];
    }
  }

  /** One character expands to itself, followed by a space when it is a
      sentence mark. */
  lemma SpaceAfterOne(z: char, mark: char)
    ensures SpaceAfter([z], mark) == if z == mark then [mark, ' '] else [z]
  {
    assert [z][1..] == [];
  }

  lemma DropSpaceAfterOne(z: char, mark: char)
    ensures DropSpaceAfter([z], mark) == [z]
  {
    assert [z][1..] == [];
  }

  lemma ExpandChar(z: char)
    ensures Expand([z]) == [z] + (if IsSentenceMark(z) then [' '] else [])
  {
    SpaceAfterOne(z, MyanmarSection);
    if z == MyanmarSection {
      SpaceAfterConcat([z], [' '], FullStop);
      SpaceAfterOne(z, FullStop);
      SpaceAfterOne(' ', FullStop);
      assert [z, ' '] == [z] + [' '];
    } else {
      SpaceAfterOne(z, FullStop);
    }
  }

  lemma ExpandConcat(a: string, b: string)
    ensures Expand(a + b) == Expand(a) + Expand(b)
  {
    SpaceAfterConcat(a, b, MyanmarSection);
    SpaceAfterConcat(SpaceAfter(a, MyanmarSection), SpaceAfter(b, MyanmarSection), FullStop);
  }

  /** Whitespace around a text passes through the expansion unchanged. */
  lemma ExpandFramed(w1: string, c: string, w2: string)
    requires AllSpace(w1) && AllSpace(w2)
    ensures Expand(w1 + c + w2) == w1 + Expand(c) + w2
  {
    ExpandConcat(w1 + c, w2);
    ExpandConcat(w1, c);
    SpaceAfterAllSpace(w1, MyanmarSection);
    SpaceAfterAllSpace(w1, FullStop);
    SpaceAfterAllSpace(w2, MyanmarSection);
    SpaceAfterAllSpace(w2, FullStop);
  }

  lemma {:induction false} TrimStartSpaces(w: string, x: string)
    requires AllSpace(w) && (x == [] || !IsSpace(x[0]))
    ensures TrimStart(w + x) == x
    decreases |w|
  {
    if w != [] {
      assert (w + x)[1..] == w[1..] + x;
      assert AllSpace(w[1..]) by {
        forall k | 0 <= k < |w[1..]| ensures IsSpace(w[1..][k]) {
          assert w[1..][k] == w[k + 1];
        }
      }
      TrimStartSpaces(w[1..], x);
    } else {
      assert w + x == x;
    }
  }

  lemma {:induction false} TrimEndSpaces(x: string, w: string)
    requires AllSpace(w)
    ensures TrimEnd(x + w) == TrimEnd(x)
    decreases |w|
  {
    if w != [] {
      var v := w[..|w| - 1];
      assert (x + w)[..|x + w| - 1] == x + v;
      assert AllSpace(v) by {
        forall k | 0 <= k < |v| ensures IsSpace(v[k]) {
          assert v[k] == w[k];
        }
      }
      TrimEndSpaces(x, v);
    } else {
      assert x + w == x;
    }
  }

  /** Dropping spaces works piece by piece when the second piece does not
      start with a space. */
  lemma {:induction false} DropSpaceAfterConcat(a: string, b: string, mark: char)
    requires b == [] || b[0] != ' '
    ensures DropSpaceAfter(a + b, mark) == DropSpaceAfter(a, mark) + DropSpaceAfter(b, mark)
    decreases |a|
  {
    if a == [] {
      assert a + b == b;
    } else if a[0] == mark && |a| >= 2 && a[1] == ' ' {
      assert (a + b)[2..] == a[2..] + b;
      DropSpaceAfterConcat(a[2..], b, mark);
    } else {
      assert (a + b)[1..] == a[1..] + b;
      DropSpaceAfterConcat(a[1..], b, mark);
    }
  }

  /** Expansion keeps the first character. */
  lemma ExpandFirst(c: string)
    requires c != []
    ensures Expand(c) != [] && Expand(c)[0] == c[0]
  {
    assert c == [c[0]] + c[1..];
    ExpandConcat([c[0]], c[1..]);
    ExpandChar(c[0]);
  }

  /** Stripping the expansion of a text with non-space ends removes at
      most the space inserted after its last character. */
  lemma StripExpand(text: string, w1: string, body: string, z: char, w2: string)
    requires text == w1 + (body + [z]) + w2 && AllSpace(w1) && AllSpace(w2)
    requires !IsSpace(z) && (body == [] || !IsSpace(body[0]))
    ensures Strip(Expand(text)) == Expand(body) + [z]
  {
    var c := body + [z];
    var sp: string := if IsSentenceMark(z) then [' '] else [];
    ExpandFramed(w1, c, w2);
    ExpandConcat(body, [z]);
    ExpandChar(z);
    var x := Expand(body) + [z];
    assert Expand(c) == x + sp;
    if body != [] {
      ExpandFirst(body);
    }
    assert Expand(text) == w1 + (x + sp + w2);
    TrimStartSpaces(w1, x + sp + w2);
    assert AllSpace(sp + w2);
    assert x + sp + w2 == x + (sp + w2);
    TrimEndSpaces(x, sp + w2);
  }

  /** Undoing the normalisation of a text whose non-space core `c` is
      framed by whitespace gives back `c`. */
  lemma ExpandStripUndoFramed(text: string, w1: string, c: string, w2: string)
    requires text == w1 + c + w2 && AllSpace(w1) && AllSpace(w2)
    requires c != [] && !IsSpace(c[0]) && !IsSpace(c[|c| - 1])
    ensures DropSpaceAfter(DropSpaceAfter(Strip(Expand(text)), FullStop), MyanmarSection) == c
  {
    var body := c[..|c| - 1];
    var z := c[|c| - 1];
    assert c == body + [z];
    StripExpand(text, w1, body, z, w2);
    DropExpand(body, z);
  }

  /** The expansion of an all-space text strips to nothing. */
  lemma StripExpandBlank(w1: string, w2: string)
    requires AllSpace(w1) && AllSpace(w2)
    ensures Strip(Expand(w1 + w2)) == []
  {
    ExpandFramed(w1, [], w2);
    assert w1 + [] + w2 == w1 + w2;
    TrimStartSpaces(w1 + w2, []);
    assert w1 + w2 + [] == w1 + w2;
  }

  /** Removing the inserted spaces from an expansion followed by one
      more non-space character. */
  lemma DropExpand(body: string, z: char)
    requires !IsSpace(z)
    ensures DropSpaceAfter(DropSpaceAfter(Expand(body) + [z], FullStop), MyanmarSection) == body + [z]
  {
    var e1 := SpaceAfter(body, MyanmarSection);
    DropSpaceAfterOne(z, FullStop);
    DropSpaceAfterOne(z, MyanmarSection);
    DropSpaceAfterConcat(Expand(body), [z], FullStop);
    DropSpaceAfterInverse(e1, FullStop);
    assert DropSpaceAfter(Expand(body) + [z], FullStop) == e1 + [z];
    DropSpaceAfterConcat(e1, [z], MyanmarSection);
    DropSpaceAfterInverse(body, MyanmarSection);
  }

  /** Removing the space after each full stop and then after each section
      mark turns the normalised text back into the stripped input. */
  lemma ExpandStripUndo(text: string)
    ensures DropSpaceAfter(DropSpaceAfter(Strip(Expand(text)), FullStop), MyanmarSection) == Strip(text)
  {
    var c := Strip(text);
    var lo := |text| - |TrimStart(text)|;
    StripSlice(text, lo);
    var w1 := text[..lo];
    var w2 := text[lo + |c|..];
    assert text == w1 + c + w2;
    if c == [] {
      StripExpandBlank(w1, w2);
      assert text == w1 + w2;
    } else {
      StripTrimmed(text);
      ExpandStripUndoFramed(text, w1, c, w2);
    }
  }

}
