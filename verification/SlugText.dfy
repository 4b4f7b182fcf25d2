/** Headings as readers see them: what becomes of tags, spaces, words and letters. */
module SlugText {
  import opened Strings
  import opened Slugs

  // ------------------------------------------------------------------- tags

  /** Main result: the first tag becomes a space, and the rest is treated alike; without a tag nothing changes. */
  lemma TagInFull(before: Text, inside: Text, after: Text)
    requires 60 !in before && 62 !in inside
    ensures StripTags(before + [60] + inside + [62] + after) == before + [32] + StripTags(after)
  {
    var t := before + [60] + inside + [62] + after;
    FirstUnit(before, 60, inside + [62] + after);
    assert t == before + ([60] + (inside + [62] + after));
    var rest := t[|before|..];
    FirstUnit([60] + inside, 62, after);
    assert rest == [60] + inside + ([62] + after);
    assert t[..|before|] == before && t[|before| + |inside| + 2..] == after;
  }

  lemma FirstUnit(a: Text, u: Unit, b: Text)
    requires u !in a
    ensures IndexOf(a + ([u] + b), u) == |a|
  {
    var t := a + ([u] + b);
    assert forall i :: 0 <= i < |a| ==> t[i] == a[i];
    assert t[|a|] == u;
  }

  /** No `<` has a `>` after it. */
  ghost predicate NoTag(t: Text) {
    forall i, j :: 0 <= i < j < |t| ==> !(t[i] == 60 && t[j] == 62)
  }

  lemma NoTagInFull(t: Text)
    requires NoTag(t)
    ensures StripTags(t) == t
  {
    StripTagsFixed(t);
  }

  // ------------------------------------------------------------------ spaces

  /** The white space of ECMAScript. */
  predicate Blank(u: Unit) {
    u in {9, 10, 11, 12, 13, 32, 160, 5760, 8192, 8193, 8194, 8195, 8196, 8197, 8198, 8199, 8200, 8201, 8202, 8232,
      8233,
          8239, 8287, 12288, 65279}
  }

  lemma BlankExactly(u: Unit)
    ensures IsSpace(u) <==> Blank(u)
  {
  }

  predicate AllOf(t: Text, run: Unit -> bool) {
    forall i :: 0 <= i < |t| ==> run(t[i])
  }

  predicate NoneOf(t: Text, run: Unit -> bool) {
    forall i :: 0 <= i < |t| ==> !run(t[i])
  }

  lemma {:induction false} SqueezePlain(p: Text, s: Text, run: Unit -> bool, r: Unit)
    requires NoneOf(p, run)
    ensures Squeeze(p + s, run, r) == p + Squeeze(s, run, r)
  {
    if p == [] {
      assert p + s == s;
    } else {
      assert (p + s)[1..] == p[1..] + s;
      SqueezePlain(p[1..], s, run, r);
    }
  }

  lemma {:induction false} SqueezeRun(g: Text, s: Text, run: Unit -> bool, r: Unit)
    requires g != [] && AllOf(g, run) && (s == [] || !run(s[0]))
    ensures Squeeze(g + s, run, r) == [r] + Squeeze(s, run, r)
  {
    var t := g + s;
    assert t[1..] == g[1..] + s;
    if |g| > 1 {
      SqueezeRun(g[1..], s, run, r);
      assert t[1] == g[1];
    } else {
      assert g[1..] == [] && [] + s == s;
      assert |t| > 1 ==> t[1] == s[0];
    }
  }

  /** Pieces with a gap before each. */
  function Gapped(gaps: seq<Text>, pieces: seq<Text>): Text
    requires |gaps| == |pieces|
  {
    if pieces == [] then [] else gaps[0] + pieces[0] + Gapped(gaps[1..], pieces[1..])
  }

  /** Words are not empty and without spaces; gaps are spaces, and only the first may be empty. */
  predicate Worded(gaps: seq<Text>, words: seq<Text>) {
    && |gaps| == |words|
    && (forall i :: 0 <= i < |words| ==> words[i] != [] && NoneOf(words[i], Blank))
    && (forall i :: 0 <= i < |gaps| ==> AllOf(gaps[i], Blank) && (i > 0 ==> gaps[i] != []))
  }

  lemma SpacesAlike(t: Text)
    ensures AllOf(t, IsSpace) <==> AllOf(t, Blank)
    ensures NoneOf(t, IsSpace) <==> NoneOf(t, Blank)
  {
    hide IsSpace, Blank;
    forall u ensures IsSpace(u) <==> Blank(u) {
      BlankExactly(u);
    }
  }

  lemma SqueezeFirst(gap: Text, word: Text, rest: Text, r: Unit)
    requires AllOf(gap, IsSpace) && word != [] && NoneOf(word, IsSpace)
    ensures Squeeze(gap + word + rest, IsSpace, r) ==
            (if gap == [] then [] else [r]) + word + Squeeze(rest, IsSpace, r)
  {
    hide IsSpace, Squeeze;
    SqueezePlain(word, rest, IsSpace, r);
    assert gap + word + rest == gap + (word + rest);
    if gap == [] {
      assert [] + (word + rest) == word + rest;
    } else {
      SqueezeRun(gap, word + rest, IsSpace, r);
    }
  }

  lemma SqueezeEnd(end: Text, r: Unit)
    requires AllOf(end, IsSpace)
    ensures Squeeze(end, IsSpace, r) == if end == [] then [] else [r]
  {
    hide IsSpace;
    if end != [] {
      SqueezeRun(end, [], IsSpace, r);
      assert end + [] == end && Squeeze([], IsSpace, r) == [];
    }
  }

  ghost predicate SpaceGaps(gaps: seq<Text>) {
    forall i :: 0 <= i < |gaps| ==> AllOf(gaps[i], IsSpace) && (i > 0 ==> gaps[i] != [])
  }

  ghost predicate SolidWords(words: seq<Text>) {
    forall i :: 0 <= i < |words| ==> words[i] != [] && NoneOf(words[i], IsSpace)
  }

  lemma GappedStep(gaps: seq<Text>, words: seq<Text>)
    requires |gaps| == |words| && words != []
    ensures Gapped(gaps, words) == gaps[0] + words[0] + Gapped(gaps[1..], words[1..])
  {
  }

  lemma NothingGapped(gaps: seq<Text>, words: seq<Text>)
    requires |gaps| == |words| == 0
    ensures Gapped(gaps, words) == []
  {
  }

  lemma {:induction false} SqueezeWords(gaps: seq<Text>, words: seq<Text>, end: Text, r: Unit)
    requires |gaps| == |words| && SpaceGaps(gaps) && SolidWords(words) && words != [] && AllOf(end, IsSpace)
    ensures Squeeze(Gapped(gaps, words) + end, IsSpace, r) ==
            (if gaps[0] == [] then [] else [r]) + Join(words, r) + (if end == [] then [] else [r])
    decreases |words|
  {
    hide IsSpace, Squeeze, AllOf, NoneOf, Gapped;
    var rest := Gapped(gaps[1..], words[1..]) + end;
    GappedStep(gaps, words);
    assert Gapped(gaps, words) + end == gaps[0] + words[0] + rest;
    SqueezeFirst(gaps[0], words[0], rest, r);
    if |words| > 1 {
      SqueezeWords(gaps[1..], words[1..], end, r);
    } else {
      NothingGapped(gaps[1..], words[1..]);
      assert rest == end;
      SqueezeEnd(end, r);
    }
  }

  lemma WordedAlike(gaps: seq<Text>, words: seq<Text>)
    requires Worded(gaps, words)
    ensures SpaceGaps(gaps) && SolidWords(words)
  {
    hide IsSpace, Blank, AllOf, NoneOf;
    forall t: Text ensures (AllOf(t, IsSpace) <==> AllOf(t, Blank)) && (NoneOf(t, IsSpace) <==> NoneOf(t, Blank)) {
      SpacesAlike(t);
    }
  }

  lemma SqueezeNothing()
    ensures Squeeze([], IsSpace, SPACE) == [] && Squeeze([], IsMinus, MINUS) == [] && Squeeze([], IsSpace, MINUS) == []
  {
  }

  lemma {:induction false} TrimAround(a: Text, m: Text, b: Text)
    requires AllOf(a, IsSpace) && AllOf(b, IsSpace) && m != [] && !IsSpace(m[0]) && !IsSpace(m[|m| - 1])
    ensures Trim(a + m + b) == m
  {
    hide IsSpace;
    TrimStartSkips(a, m + b);
    assert a + m + b == a + (m + b);
    TrimEndSkips(m, b);
  }

  lemma {:induction false} TrimStartSkips(a: Text, s: Text)
    requires AllOf(a, IsSpace) && (s == [] || !IsSpace(s[0]))
    ensures TrimStart(a + s) == s
  {
    hide IsSpace;
    if a == [] {
      assert a + s == s;
    } else {
      assert (a + s)[1..] == a[1..] + s;
      TrimStartSkips(a[1..], s);
    }
  }

  lemma {:induction false} TrimEndSkips(s: Text, b: Text)
    requires AllOf(b, IsSpace) && (s == [] || !IsSpace(s[|s| - 1]))
    ensures TrimEnd(s + b) == s
    decreases |b|
  {
    hide IsSpace;
    if b == [] {
      assert s + b == s;
    } else {
      var t := s + b;
      assert t[..|t| - 1] == s + b[..|b| - 1];
      TrimEndSkips(s, b[..|b| - 1]);
    }
  }

  lemma {:induction false} JoinEnds(words: seq<Text>)
    requires words != [] && SolidWords(words)
    ensures var t := Join(words, 32); t != [] && !IsSpace(t[0]) && !IsSpace(t[|t| - 1])
  {
    hide IsSpace;
    if |words| > 1 {
      JoinEnds(words[1..]);
      assert words[0][0] == Join(words, 32)[0];
    }
  }

  /** Main result: a text without tags keeps its words, with one space between them and none around. */
  lemma WordsInFull(gaps: seq<Text>, words: seq<Text>, end: Text)
    requires Worded(gaps, words) && words != [] && AllOf(end, Blank)
    requires NoTag(Gapped(gaps, words) + end)
    ensures StripHtml(Gapped(gaps, words) + end) == Join(words, 32)
  {
    hide StripTags, Squeeze, Trim, IsSpace, Blank, NoTag;
    var t := Gapped(gaps, words) + end;
    NoTagInFull(t);
    WordedAlike(gaps, words);
    SpacesAlike(end);
    SqueezeWords(gaps, words, end, SPACE);
    JoinEnds(words);
    SpaceIsSpace();
    var a: Text, b: Text := if gaps[0] == [] then [] else [32], if end == [] then [] else [32];
    TrimAround(a, Join(words, 32), b);
  }

  lemma SpaceIsSpace()
    ensures IsSpace(32) && !IsSpace(45)
  {
  }

  // ------------------------------------------------------------------- slugs

  /** The part of a word that goes into a slug: ASCII letters in lower case, digits and hyphens. The Kelvin sign
      counts as a K and the dotted capital I as an I; everything else is dropped. */
  function SlugWord(word: Text): Text {
    if word == [] then []
    else
      var u := word[0];
      (if 65 <= u <= 90 then [u + 32]
       else if 97 <= u <= 122 || 48 <= u <= 57 || u == 45 then [u]
       else if u == 8490 then [107]
       else if u == 304 then [105]
       else []) + SlugWord(word[1..])
  }

  lemma {:induction false} KeptAppend(a: Text, b: Text)
    ensures Kept(a + b) == Kept(a) + Kept(b)
  {
    hide Kept;
    KeptNone();
    if a == [] {
      assert a + b == b;
    } else {
      KeptStep(a);
      KeptStep(a + b);
      assert (a + b)[1..] == a[1..] + b;
      KeptAppend(a[1..], b);
    }
  }

  function KeptUnits(u: Unit): Text {
    if IsSlugUnit(u) || IsSpace(u) then [u] else []
  }

  lemma KeptNone()
    ensures Kept([]) == []
  {
  }

  lemma KeptStep(t: Text)
    requires t != []
    ensures Kept(t) == KeptUnits(t[0]) + Kept(t[1..])
  {
    hide IsSpace, IsSlugUnit;
  }

  lemma {:induction false} LowerAppend(a: Text, b: Text)
    ensures LowerCase(a + b) == LowerCase(a) + LowerCase(b)
  {
    hide Lower;
    if a == [] {
      assert a + b == b;
    } else {
      assert (a + b)[1..] == a[1..] + b;
      LowerAppend(a[1..], b);
    }
  }

  lemma KeptUnit(u: Unit)
    requires !IsSpace(u)
    ensures Kept(Lower(u)) ==
            if 65 <= u <= 90 then [u + 32]
            else if 97 <= u <= 122 || 48 <= u <= 57 || u == 45 then [u]
            else if u == 8490 then [107]
            else if u == 304 then [105]
            else []
  {
    hide Kept;
    var l := Lower(u);
    if u == 304 {
      KeptAppend([105], [0x307]);
      assert [105 as Unit] + [0x307] == l;
      KeptOne(105);
      KeptOne(0x307);
    } else {
      KeptOne(l[0]);
      assert l == [l[0]];
    }
  }

  lemma KeptOne(u: Unit)
    ensures Kept([u]) == if IsSlugUnit(u) || IsSpace(u) then [u] else []
  {
    assert [u][1..] == [];
  }

  lemma {:induction false} KeptWord(word: Text)
    requires NoneOf(word, IsSpace)
    ensures Kept(LowerCase(word)) == SlugWord(word)
  {
    hide IsSpace, Kept, Lower;
    if word == [] {
      KeptNothing();
    } else {
      KeptWord(word[1..]);
      KeptUnit(word[0]);
      KeptAppend(Lower(word[0]), LowerCase(word[1..]));
    }
  }

  lemma KeptNothing()
    ensures Kept([]) == [] && LowerCase([]) == [] && Kept(LowerCase([32])) == [32]
  {
    assert [32 as Unit][1..] == [];
    assert LowerCase([32]) == [32];
  }

  function SlugWords(words: seq<Text>): (slugs: seq<Text>)
    ensures |slugs| == |words|
  {
    seq(|words|, i requires 0 <= i < |words| => SlugWord(words[i]))
  }

  lemma {:induction false} KeptWords(words: seq<Text>)
    requires forall i :: 0 <= i < |words| ==> NoneOf(words[i], IsSpace)
    ensures Kept(LowerCase(Join(words, 32))) == Join(SlugWords(words), 32)
  {
    hide IsSpace, Kept, LowerCase, SlugWord;
    KeptNothing();
    if words != [] {
      KeptWord(words[0]);
      assert SlugWords(words)[1..] == SlugWords(words[1..]);
      if |words| > 1 {
        KeptWords(words[1..]);
        var rest := Join(words[1..], 32);
        LowerAppend(words[0] + [32], rest);
        LowerAppend(words[0], [32]);
        KeptAppend(LowerCase(words[0]) + LowerCase([32]), LowerCase(rest));
        KeptAppend(LowerCase(words[0]), LowerCase([32]));
      }
    }
  }

  /** The words that are left. */
  function NotEmpty(words: seq<Text>): seq<Text> {
    if words == [] then [] else (if words[0] == [] then [] else [words[0]]) + NotEmpty(words[1..])
  }

  lemma GappedFirst(gap: Text, gaps: seq<Text>, piece: Text, pieces: seq<Text>)
    requires |gaps| == |pieces|
    ensures Gapped([gap] + gaps, [piece] + pieces) == gap + piece + Gapped(gaps, pieces)
  {
    assert ([gap] + gaps)[1..] == gaps && ([piece] + pieces)[1..] == pieces;
  }

  lemma GapsFirst(gap: Text, gaps: seq<Text>)
    requires AllOf(gap, IsSpace) && SpaceGaps(gaps) && (gaps != [] ==> gaps[0] != [])
    ensures SpaceGaps([gap] + gaps)
  {
    hide IsSpace, AllOf;
  }

  /** A space in front of what follows widens its first gap, or its end. */
  lemma SpaceBefore(gaps: seq<Text>, words: seq<Text>, end: Text) returns (wider: seq<Text>, later: Text)
    requires |gaps| == |words| && SpaceGaps(gaps) && AllOf(end, IsSpace)
    ensures |wider| == |words| && SpaceGaps(wider) && AllOf(later, IsSpace)
    ensures wider != [] ==> wider[0] != []
    ensures [32] + (Gapped(gaps, words) + end) == Gapped(wider, words) + later
  {
    SpaceIsSpace();
    if words == [] {
      wider, later := [], [32] + end;
      assert Gapped(gaps, words) == [];
    } else {
      wider, later := [[32] + gaps[0]] + gaps[1..], end;
      hide IsSpace;
      assert gaps == [gaps[0]] + gaps[1..] && words == [words[0]] + words[1..];
      GappedFirst(gaps[0], gaps[1..], words[0], words[1..]);
      GappedFirst([32] + gaps[0], gaps[1..], words[0], words[1..]);
      assert forall i :: 1 <= i < |wider| ==> wider[i] == gaps[i];
    }
  }

  /** Words, some of them empty, one space apart. */
  lemma {:induction false} JoinedIsWorded(words: seq<Text>) returns (gaps: seq<Text>, end: Text)
    ensures |gaps| == |NotEmpty(words)| && SpaceGaps(gaps) && AllOf(end, IsSpace)
    ensures Join(words, 32) == Gapped(gaps, NotEmpty(words)) + end
    decreases |words|
  {
    hide IsSpace, Gapped, AllOf, SpaceGaps;
    NoGaps();
    gaps, end := [], [];
    if |words| == 1 {
      LastWord(words);
      if words[0] != [] {
        gaps := [[]];
        OneGap(words[0]);
        assert words == [words[0]];
      }
    } else if words != [] {
      var more, later := JoinedIsWorded(words[1..]);
      var left := NotEmpty(words[1..]);
      gaps, end := SpaceBefore(more, left, later);
      var tail := [32] + Join(words[1..], 32);
      assert Join(words, 32) == words[0] + tail;
      assert tail == Gapped(gaps, left) + end;
      if words[0] == [] {
        assert NotEmpty(words) == left && [] + tail == tail;
      } else {
        GappedFirst([], gaps, words[0], left);
        NoGapFirst(gaps);
        assert NotEmpty(words) == [words[0]] + left;
        assert words[0] + (Gapped(gaps, left) + end) == [] + words[0] + Gapped(gaps, left) + end;
        gaps := [[]] + gaps;
      }
    }
  }

  lemma NoGapFirst(gaps: seq<Text>)
    requires SpaceGaps(gaps) && (gaps != [] ==> gaps[0] != [])
    ensures SpaceGaps([[]] + gaps)
  {
    hide IsSpace;
    GapsFirst([], gaps);
  }

  lemma NoGaps()
    ensures Gapped([], []) == [] && SpaceGaps([]) && AllOf([], IsSpace)
  {
  }

  lemma OneGap(word: Text)
    ensures Gapped([[]], [word]) == word && SpaceGaps([[]])
  {
    hide IsSpace;
    GappedFirst([], [], word, []);
    var gap: seq<Text> := [[]];
    assert gap == gap + [] && [word] == [word] + [];
  }

  lemma LastWord(words: seq<Text>)
    requires |words| == 1
    ensures Join(words, 32) == words[0] && NotEmpty(words) == if words[0] == [] then [] else words
  {
    assert NotEmpty(words[1..]) == [];
  }

  lemma {:induction false} NotEmptySolid(words: seq<Text>)
    requires forall i :: 0 <= i < |words| ==> NoneOf(words[i], IsSpace)
    ensures SolidWords(NotEmpty(words))
  {
    hide IsSpace, NoneOf;
    if words != [] {
      NotEmptySolid(words[1..]);
    }
  }

  /** Trimmed and with hyphens for spaces, words become words with hyphens. */
  lemma HyphenatedWords(words: seq<Text>)
    requires forall i :: 0 <= i < |words| ==> NoneOf(words[i], IsSpace)
    ensures Squeeze(Trim(Join(words, 32)), IsSpace, MINUS) == Join(NotEmpty(words), 45)
  {
    var gaps, end := JoinedIsWorded(words);
    var left := NotEmpty(words);
    NotEmptySolid(words);
    hide IsSpace, Squeeze, Trim, AllOf, NoneOf, Gapped, SpaceGaps, SolidWords, NotEmpty;
    if left == [] {
      NothingLeft(words, end);
    } else {
      HyphenatedLeft(gaps, left, end);
    }
  }

  lemma HyphenatedLeft(gaps: seq<Text>, words: seq<Text>, end: Text)
    requires |gaps| == |words| && words != [] && SpaceGaps(gaps) && SolidWords(words) && AllOf(end, IsSpace)
    ensures Squeeze(Trim(Gapped(gaps, words) + end), IsSpace, MINUS) == Join(words, 45)
  {
    hide IsSpace, Squeeze, Trim, AllOf, NoneOf, Gapped, SpaceGaps, SolidWords;
    TrimGapped(gaps, words, end);
    NoSpaceGaps(gaps);
    var first := [[]] + gaps[1..];
    SqueezeWords(first, words, [], MINUS);
    var text := Gapped(first, words);
    assert text + [] == text && [] + Join(words, 45) + [] == Join(words, 45);
  }

  lemma NoSpaceGaps(gaps: seq<Text>)
    requires SpaceGaps(gaps) && gaps != []
    ensures SpaceGaps([[]] + gaps[1..]) && AllOf([], IsSpace)
  {
    hide IsSpace;
    var first := [[]] + gaps[1..];
    assert forall i :: 1 <= i < |first| ==> first[i] == gaps[i];
  }

  lemma NothingLeft(words: seq<Text>, end: Text)
    requires AllOf(end, IsSpace) && Join(words, 32) == Gapped([], []) + end
    ensures Squeeze(Trim(Join(words, 32)), IsSpace, MINUS) == []
  {
    assert Gapped([], []) + end == end;
    hide IsSpace;
    TrimStartSkips(end, []);
    assert end + [] == end;
  }

  lemma {:induction false} GappedEnds(gaps: seq<Text>, words: seq<Text>)
    requires |gaps| == |words| && words != [] && SolidWords(words)
    ensures var t := Gapped(gaps, words); |t| > 0 && !IsSpace(t[|t| - 1])
  {
    hide IsSpace;
    if |words| > 1 {
      GappedEnds(gaps[1..], words[1..]);
    } else {
      assert Gapped(gaps[1..], words[1..]) == [];
    }
  }

  lemma GapInFront(gaps: seq<Text>, words: seq<Text>)
    requires |gaps| == |words| && words != []
    ensures Gapped(gaps, words) == gaps[0] + Gapped([[]] + gaps[1..], words)
    ensures Gapped([[]] + gaps[1..], words) == words[0] + Gapped(gaps[1..], words[1..])
  {
    hide Gapped;
    var first := [[]] + gaps[1..];
    assert first[1..] == gaps[1..];
    GappedStep(first, words);
    GappedStep(gaps, words);
    AddFront(gaps[0], words[0], Gapped(gaps[1..], words[1..]));
  }

  lemma AddFront(gap: Text, word: Text, rest: Text)
    ensures [] + word + rest == word + rest
    ensures gap + word + rest == gap + (word + rest)
  {
  }

  lemma TrimGapped(gaps: seq<Text>, words: seq<Text>, end: Text)
    requires |gaps| == |words| && words != [] && SpaceGaps(gaps) && SolidWords(words) && AllOf(end, IsSpace)
    ensures Trim(Gapped(gaps, words) + end) == Gapped([[]] + gaps[1..], words)
  {
    hide IsSpace, NoneOf, Trim, Gapped;
    var m := Gapped([[]] + gaps[1..], words);
    GappedEnds([[]] + gaps[1..], words);
    GapInFront(gaps, words);
    SolidStart(words);
    assert AllOf(gaps[0], IsSpace);
    hide AllOf, SpaceGaps, SolidWords;
    TrimAround(gaps[0], m, end);
  }

  lemma SolidStart(words: seq<Text>)
    requires words != [] && SolidWords(words)
    ensures words[0] != [] && !IsSpace(words[0][0])
  {
    hide IsSpace;
  }

  lemma {:induction false} SlugWordUnits(word: Text)
    ensures NoneOf(SlugWord(word), IsSpace)
  {
    if word != [] {
      SlugWordUnits(word[1..]);
    }
  }

  /** Main result: a slug is made of the words of the plain text, each reduced to its letters in lower case, digits
      and hyphens; words with nothing left are dropped, the others joined by hyphens, and repeated hyphens become one.
      */
  lemma SlugInFull(t: Text, words: seq<Text>)
    requires StripHtml(t) == Join(words, 32) && forall i :: 0 <= i < |words| ==> NoneOf(words[i], Blank)
    ensures Slugify(t) == Squeeze(Join(NotEmpty(SlugWords(words)), 45), IsMinus, 45)
  {
    hide StripHtml, Squeeze, Trim, Kept, LowerCase, IsSpace, Blank, SlugWord, NoneOf;
    forall i | 0 <= i < |words| ensures NoneOf(words[i], IsSpace) {
      SpacesAlike(words[i]);
    }
    KeptWords(words);
    forall i | 0 <= i < |words| ensures NoneOf(SlugWords(words)[i], IsSpace) {
      SlugWordUnits(words[i]);
    }
    HyphenatedWords(SlugWords(words));
  }

  /** Hyphens in a row become one; other units stay. */
  lemma HyphensInFull(a: Text, hyphens: Text, b: Text)
    requires 45 !in a && hyphens != [] && (forall i :: 0 <= i < |hyphens| ==> hyphens[i] == 45) &&
             (b != [] ==> b[0] != 45)
    ensures Squeeze(a + hyphens + b, IsMinus, 45) == a + [45] + Squeeze(b, IsMinus, 45)
  {
    hide Squeeze;
    SqueezePlain(a, hyphens + b, IsMinus, 45);
    SqueezeRun(hyphens, b, IsMinus, 45);
    assert a + hyphens + b == a + (hyphens + b);
  }

  /** For ordinary words, without hyphens and with something left of each, that is all. */
  lemma PlainWords(t: Text, words: seq<Text>)
    requires StripHtml(t) == Join(words, 32) && words != []
    requires forall i :: 0 <= i < |words| ==> NoneOf(words[i], Blank) && SlugWord(words[i]) != [] && 45 !in words[i]
    ensures Slugify(t) == Join(SlugWords(words), 45)
  {
    hide StripHtml, Blank, NoneOf, SlugWord, Slugify, Squeeze;
    SlugInFull(t, words);
    forall i | 0 <= i < |words| ensures SlugWords(words)[i] != [] && 45 !in SlugWords(words)[i] {
      NoHyphen(words[i]);
    }
    AllLeft(SlugWords(words));
    JoinSqueezed(SlugWords(words));
    SqueezeFixed(Join(SlugWords(words), 45), IsMinus, 45);
  }

  lemma {:induction false} NoHyphen(word: Text)
    requires 45 !in word
    ensures 45 !in SlugWord(word)
  {
    if word != [] {
      NoHyphen(word[1..]);
    }
  }

  lemma {:induction false} AllLeft(words: seq<Text>)
    requires forall i :: 0 <= i < |words| ==> words[i] != []
    ensures NotEmpty(words) == words
  {
    if words != [] {
      AllLeft(words[1..]);
      assert words == [words[0]] + words[1..];
    }
  }

  lemma {:induction false} JoinSqueezed(words: seq<Text>)
    requires words != [] && forall i :: 0 <= i < |words| ==> words[i] != [] && 45 !in words[i]
    ensures Squeezed(Join(words, 45), IsMinus, 45) && Join(words, 45) != [] && Join(words, 45)[0] != 45
  {
    if |words| > 1 {
      JoinSqueezed(words[1..]);
      var rest := Join(words[1..], 45);
      PlainSqueezed(words[0]);
      SqueezedHyphen(words[0], rest);
      assert words[0][0] in words[0] && Join(words, 45)[0] == words[0][0];
    } else {
      PlainSqueezed(words[0]);
      assert words[0][0] in words[0];
    }
  }

  lemma PlainSqueezed(t: Text)
    requires 45 !in t
    ensures Squeezed(t, IsMinus, 45)
  {
  }

  lemma SqueezedHyphen(a: Text, b: Text)
    requires 45 !in a && Squeezed(b, IsMinus, 45) && b != [] && b[0] != 45
    ensures Squeezed(a + [45] + b, IsMinus, 45)
  {
    var t := a + [45] + b;
    assert forall i :: 0 <= i < |a| ==> t[i] == a[i];
    assert forall i :: |a| < i < |t| ==> t[i] == b[i - |a| - 1];
  }

  /** An ordinary heading. */
  lemma HeadingExample()
    ensures Slugify(Lit("Getting Started")) == Lit("getting-started")
  {
    var words := [Lit("Getting"), Lit("Started")];
    HeadingText();
    HeadingWords();
    hide Lit, Slugify, StripHtml, SlugWord, Blank, NoneOf;
    assert Join(words, 32) == words[0] + [32] + words[1] by {
      assert words[1..] == [words[1]];
    }
    PlainWords(Lit("Getting Started"), words);
    assert SlugWords(words) == [Lit("getting"), Lit("started")];
    assert [Lit("getting"), Lit("started")][1..] == [Lit("started")];
  }

  lemma HeadingText()
    ensures StripHtml(Lit("Getting Started")) == Lit("Getting") + [32] + Lit("Started")
    ensures Lit("getting-started") == Lit("getting") + [45] + Lit("started")
  {
    hide StripHtml, IsSpace;
    var t := Lit("Getting Started");
    Letters("Getting", "getting");
    Letters("Started", "started");
    HeadingSplits();
    hide Lit;
    TwoWords(Lit("Getting"), Lit("Started"));
    StripHtmlExact(t);
  }

  lemma HeadingSplits()
    ensures Lit("Getting Started") == Lit("Getting") + [32] + Lit("Started")
    ensures Lit("getting-started") == Lit("getting") + [45] + Lit("started")
    ensures Lit("Getting") != [] && Lit("Started") != []
  {
  }

  lemma TwoWords(a: Text, b: Text)
    requires a != [] && b != [] && NoneOf(a, Blank) && NoneOf(b, Blank) && 60 !in a && 60 !in b
    ensures IsStripped(a + [32] + b)
  {
    hide IsSpace, Blank;
    SpacesAlike(a);
    SpacesAlike(b);
    SpaceIsSpace();
    var t := a + [32] + b;
    assert forall i :: 0 <= i < |a| ==> t[i] == a[i];
    assert forall i :: |a| < i < |t| ==> t[i] == b[i - |a| - 1];
    assert t[|a|] == 32;
  }

  lemma HeadingWords()
    ensures SlugWord(Lit("Getting")) == Lit("getting") && SlugWord(Lit("Started")) == Lit("started")
    ensures 45 !in Lit("Getting") && 45 !in Lit("Started") && NoneOf(Lit("Getting"), Blank) &&
            NoneOf(Lit("Started"), Blank)
  {
    Letters("Getting", "getting");
    Letters("Started", "started");
  }

  /** Letters and their lower-case forms. */
  predicate Lowered(a: string, b: string) {
    |a| == |b| && forall i :: 0 <= i < |a| ==>
      (('a' <= a[i] <= 'z' && b[i] == a[i]) || ('A' <= a[i] <= 'Z' && b[i] as int == a[i] as int + 32))
  }

  lemma {:induction false} LoweredWord(w: Text, l: Text)
    requires |w| == |l|
    requires forall i :: 0 <= i < |w| ==> (97 <= w[i] <= 122 && l[i] == w[i]) || (65 <= w[i] <= 90 && l[i] == w[i] + 32)
    ensures SlugWord(w) == l
  {
    if w != [] {
      LoweredWord(w[1..], l[1..]);
      assert l == [l[0]] + l[1..];
    }
  }

  lemma Letters(a: string, b: string)
    requires Lowered(a, b)
    ensures SlugWord(Lit(a)) == Lit(b) && 45 !in Lit(a) && 60 !in Lit(a) && NoneOf(Lit(a), Blank)
    ensures |a| > 0 ==> Lit(a) != []
  {
    LoweredWord(Lit(a), Lit(b));
  }
}
