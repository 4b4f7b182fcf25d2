/** Text transforms of the documentation build: HTML escaping and heading ids. */
module DocumentText {
  import opened Strings
  import opened Slugs

  // -------------------------------------------------------------- escaping

  /** `s.replaceAll(u, r)` for a pattern of one unit. */
  function ReplaceAll(s: Text, u: Unit, r: Text): Text {
    if s == [] then [] else (if s[0] == u then r else [s[0]]) + ReplaceAll(s[1..], u, r)
  }

  const AMP := Lit("&amp;")
  const LT := Lit("&lt;")
  const GT := Lit("&gt;")
  const QUOT := Lit("&quot;")
  const APOS := Lit("&#039;")

  /** `escapeHtml`: five replacements, one after the other. */
  function EscapeHtml(s: Text): Text {
    ReplaceAll(ReplaceAll(ReplaceAll(ReplaceAll(ReplaceAll(s, AMPERSAND, AMP), LESS, LT), GREATER, GT), QUOTE, QUOT),
               APOSTROPHE, APOS)
  }

  /** What one unit becomes. */
  function Entity(u: Unit): Text {
    if u == AMPERSAND then AMP
    else if u == LESS then LT
    else if u == GREATER then GT
    else if u == QUOTE then QUOT
    else if u == APOSTROPHE then APOS
    else [u]
  }

  /** One simultaneous substitution. */
  function Substitute(s: Text): Text {
    if s == [] then [] else Entity(s[0]) + Substitute(s[1..])
  }

  /** How a browser reads the five entities back. */
  function Unescape(s: Text): Text {
    if s == [] then []
    else if StartsWith(s, AMP) then [AMPERSAND] + Unescape(s[|AMP|..])
    else if StartsWith(s, LT) then [LESS] + Unescape(s[|LT|..])
    else if StartsWith(s, GT) then [GREATER] + Unescape(s[|GT|..])
    else if StartsWith(s, QUOT) then [QUOTE] + Unescape(s[|QUOT|..])
    else if StartsWith(s, APOS) then [APOSTROPHE] + Unescape(s[|APOS|..])
    else [s[0]] + Unescape(s[1..])
  }

  lemma {:induction false} ReplaceAllAppend(a: Text, b: Text, u: Unit, r: Text)
    ensures ReplaceAll(a + b, u, r) == ReplaceAll(a, u, r) + ReplaceAll(b, u, r)
  {
    if a == [] {
      assert a + b == b;
    } else {
      assert (a + b)[1..] == a[1..] + b;
      ReplaceAllAppend(a[1..], b, u, r);
    }
  }

  lemma {:induction false} ReplaceAllAbsent(s: Text, u: Unit, r: Text)
    requires u !in s
    ensures ReplaceAll(s, u, r) == s
  {
    if s != [] {
      ReplaceAllAbsent(s[1..], u, r);
      assert s == [s[0]] + s[1..];
    }
  }

  lemma ReplaceOne(x: Unit, u: Unit, r: Text)
    ensures ReplaceAll([x], u, r) == if x == u then r else [x]
  {
    assert ReplaceAll([x][1..], u, r) == [];
  }

  predicate Plain(t: Text) {
    LESS !in t && GREATER !in t && QUOTE !in t && APOSTROPHE !in t
  }

  predicate PlainChars(s: string) {
    forall c :: c in s ==> c != '<' && c != '>' && c != '"' && c != '\'' && c < '\U{10000}'
  }

  lemma PlainLiteral(s: string)
    requires PlainChars(s)
    ensures Plain(Lit(s))
  {
    assert forall i :: 0 <= i < |s| ==> s[i] in s;
    CharValues();
  }

  lemma CharValues()
    ensures '<' as int == LESS && '>' as int == GREATER && '"' as int == QUOTE && '\'' as int == APOSTROPHE
  {
  }

  lemma EntitiesPlain()
    ensures Plain(AMP) && Plain(LT) && Plain(GT) && Plain(QUOT) && Plain(APOS)
  {
    hide Plain;
    PlainLiteral("&amp;");
    PlainLiteral("&lt;");
    PlainLiteral("&gt;");
    PlainLiteral("&quot;");
    PlainLiteral("&#039;");
  }

  /** On a single unit the five passes act as one: no later pass touches what an earlier one inserted. */
  lemma EscapeUnit(x: Unit)
    ensures EscapeHtml([x]) == Entity(x)
  {
    hide ReplaceAll;
    EntitiesPlain();
    ReplaceOne(x, AMPERSAND, AMP);
    ReplaceOne(x, LESS, LT);
    ReplaceOne(x, GREATER, GT);
    ReplaceOne(x, QUOTE, QUOT);
    ReplaceOne(x, APOSTROPHE, APOS);
    var e := Entity(x);
    if x != LESS {
      ReplaceAllAbsent(e, LESS, LT);
    }
    ReplaceAllAbsent(e, GREATER, GT);
    ReplaceAllAbsent(e, QUOTE, QUOT);
    ReplaceAllAbsent(e, APOSTROPHE, APOS);
  }

  lemma EscapeAppend(a: Text, b: Text)
    ensures EscapeHtml(a + b) == EscapeHtml(a) + EscapeHtml(b)
  {
    hide ReplaceAll;
    ReplaceAllAppend(a, b, AMPERSAND, AMP);
    var a1, b1 := ReplaceAll(a, AMPERSAND, AMP), ReplaceAll(b, AMPERSAND, AMP);
    ReplaceAllAppend(a1, b1, LESS, LT);
    var a2, b2 := ReplaceAll(a1, LESS, LT), ReplaceAll(b1, LESS, LT);
    ReplaceAllAppend(a2, b2, GREATER, GT);
    var a3, b3 := ReplaceAll(a2, GREATER, GT), ReplaceAll(b2, GREATER, GT);
    ReplaceAllAppend(a3, b3, QUOTE, QUOT);
    ReplaceAllAppend(ReplaceAll(a3, QUOTE, QUOT), ReplaceAll(b3, QUOTE, QUOT), APOSTROPHE, APOS);
  }

  lemma EscapeEmpty()
    ensures EscapeHtml([]) == []
  {
  }

  /** Main result: five sequential passes equal one simultaneous substitution. */
  lemma {:induction false} EscapeIsSubstitution(s: Text)
    ensures EscapeHtml(s) == Substitute(s)
  {
    hide EscapeHtml, Entity;
    if s == [] {
      EscapeEmpty();
    } else {
      assert s == [s[0]] + s[1..];
      EscapeAppend([s[0]], s[1..]);
      EscapeUnit(s[0]);
      EscapeIsSubstitution(s[1..]);
    }
  }

  lemma UnescapeEntity(u: Unit, rest: Text)
    ensures Unescape(Entity(u) + rest) == [u] + Unescape(rest)
  {
    var e := Entity(u);
    var s := e + rest;
    assert s[..|e|] == e && s[|e|..] == rest;
    assert |LT| == 4 == |GT| && |AMP| == 5 && |QUOT| == 6 == |APOS|;
    assert AMP[0] == AMPERSAND && AMP[1] == 97 && LT[0] == AMPERSAND && LT[1] == 108 && GT[0] == AMPERSAND &&
           GT[1] == 103;
    assert QUOT[0] == AMPERSAND && QUOT[1] == 113 && APOS[0] == AMPERSAND && APOS[1] == 35;
    assert s[0] == e[0];
    assert |e| > 1 ==> s[1] == e[1];
    PrefixStart(s, AMP);
    PrefixStart(s, LT);
    PrefixStart(s, GT);
    PrefixStart(s, QUOT);
    PrefixStart(s, APOS);
  }

  lemma PrefixStart(s: Text, prefix: Text)
    requires |prefix| >= 2
    ensures StartsWith(s, prefix) ==> s[0] == prefix[0] && s[1] == prefix[1]
  {
    if StartsWith(s, prefix) {
      assert s[0] == s[..|prefix|][0] && s[1] == s[..|prefix|][1];
    }
  }

  /** Main result: escaping loses nothing, and its output holds no unit that HTML would interpret. */
  lemma EscapeRoundTrip(s: Text)
    ensures Unescape(EscapeHtml(s)) == s
    ensures Plain(EscapeHtml(s))
  {
    EscapeIsSubstitution(s);
    SubstituteRoundTrip(s);
  }

  lemma {:induction false} SubstituteRoundTrip(s: Text)
    ensures Unescape(Substitute(s)) == s
    ensures Plain(Substitute(s))
  {
    hide Unescape;
    if s == [] {
      UnescapeEmpty();
    } else {
      SubstituteRoundTrip(s[1..]);
      UnescapeEntity(s[0], Substitute(s[1..]));
      EntitiesPlain();
      assert s == [s[0]] + s[1..];
    }
  }

  lemma UnescapeEmpty()
    ensures Unescape([]) == []
  {
  }

  // ----------------------------------------------------------- heading ids

  function Count(bases: seq<Text>, base: Text): nat {
    if bases == [] then 0
    else Count(bases[..|bases| - 1], base) + if bases[|bases| - 1] == base then 1 else 0
  }

  function Suffixed(base: Text, k: nat): Text {
    base + [MINUS] + Decimal(k)
  }

  /** The id of a heading whose base slug is `base`, after headings with the slugs `before`. */
  function IdAfter(before: seq<Text>, base: Text): Text {
    if Count(before, base) == 0 then base else Suffixed(base, Count(before, base) + 1)
  }

  function IdAt(bases: seq<Text>, i: nat): Text
    requires i < |bases|
  {
    IdAfter(bases[..i], bases[i])
  }

  function BaseId(content: Text): Text {
    if Slugify(content) == [] then Lit("section") else Slugify(content)
  }

  function BaseIds(contents: seq<Text>): (bases: seq<Text>)
    ensures |bases| == |contents|
  {
    seq(|contents|, i requires 0 <= i < |contents| => BaseId(contents[i]))
  }

  datatype Heading = Heading(id: Text, depth: int, text: Text)

  datatype Markup = Markup(content: Text, plain: Text, depth: int)

  function Contents(page: seq<Markup>): (contents: seq<Text>)
    ensures |contents| == |page|
  {
    seq(|page|, i requires 0 <= i < |page| => page[i].content)
  }

  /** The table of contents: the headings of the second and third level among the first `n`, with their ids. */
  function Listed(page: seq<Markup>, n: nat): seq<Heading>
    requires n <= |page|
  {
    if n == 0 then []
    else
      Listed(page, n - 1) +
      if 2 <= page[n - 1].depth <= 3
      then [Heading(IdAt(BaseIds(Contents(page)), n - 1), page[n - 1].depth, StripHtml(page[n - 1].plain))]
      else []
  }

  /** The state of one page's heading renderer. */
  class HeadingRenderer {
    var usedIds: map<Text, nat>
    var headings: seq<Heading>
    ghost var bases: seq<Text>

    /** The counters are the counts of the base slugs rendered so far. */
    ghost predicate Valid()
      reads this
    {
      && (forall b :: b in usedIds ==> usedIds[b] == Count(bases, b))
      && (forall b :: b !in usedIds ==> Count(bases, b) == 0)
    }

    constructor ()
      ensures Valid() && bases == [] && headings == []
    {
      usedIds := map[];
      headings := [];
      bases := [];
    }

    /** `content` is the heading's HTML, `plain` its HTML without inline markup. */
    method Render(content: Text, plain: Text, depth: int) returns (id: Text)
      requires Valid()
      modifies this
      ensures Valid()
      ensures id == IdAfter(old(bases), BaseId(content)) && bases == old(bases) + [BaseId(content)]
      ensures headings ==
              old(headings) + if 2 <= depth <= 3 then [Heading(id, depth, StripHtml(plain))] else []
    {
      hide Slugify, StripHtml, Suffixed;
      var text := StripHtml(plain);
      var slug := Slugify(content);
      var baseId := if slug == [] then Lit("section") else slug;
      var occurrence := if baseId in usedIds then usedIds[baseId] else 0;
      usedIds := usedIds[baseId := occurrence + 1];
      id := if occurrence == 0 then baseId else Suffixed(baseId, occurrence + 1);
      if 2 <= depth <= 3 {
        headings := headings + [Heading(id, depth, text)];
      }
      bases := bases + [baseId];
      assert bases[..|bases| - 1] == old(bases);
    }
  }

  /** The headings of a page, in order: the id of each, and the table of contents. */
  method RenderPage(page: seq<Markup>) returns (ids: seq<Text>, headings: seq<Heading>)
    ensures |ids| == |page|
    ensures forall i :: 0 <= i < |page| ==> ids[i] == IdAt(BaseIds(Contents(page)), i)
    ensures headings == Listed(page, |page|)
  {
    hide Count, Suffixed, BaseId, StripHtml;
    var renderer := new HeadingRenderer();
    ghost var bases := BaseIds(Contents(page));
    ids := [];
    for i := 0 to |page|
      invariant renderer.Valid() && fresh(renderer)
      invariant |ids| == i && renderer.bases == bases[..i]
      invariant forall j :: 0 <= j < i ==> ids[j] == IdAt(bases, j)
      invariant renderer.headings == Listed(page, i)
    {
      var id := renderer.Render(page[i].content, page[i].plain, page[i].depth);
      assert bases[..i + 1] == bases[..i] + [bases[i]];
      ids := ids + [id];
    }
    headings := renderer.headings;
  }

  lemma {:induction false} CountSplit(a: seq<Text>, b: seq<Text>, base: Text)
    ensures Count(a + b, base) == Count(a, base) + Count(b, base)
    decreases |b|
  {
    if b == [] {
      assert a + b == a;
    } else {
      var last := |b| - 1;
      assert (a + b)[..|a| + last] == a + b[..last];
      CountSplit(a, b[..last], base);
    }
  }

  /** A later heading with the same slug has seen more of it. */
  lemma CountGrows(bases: seq<Text>, i: nat, j: nat, base: Text)
    requires i <= j <= |bases|
    ensures Count(bases[..i], base) <= Count(bases[..j], base)
    ensures i < j && bases[i] == base ==> Count(bases[..i], base) < Count(bases[..j], base)
  {
    assert bases[..j] == bases[..i] + bases[i..j];
    CountSplit(bases[..i], bases[i..j], base);
    if i < j && bases[i] == base {
      assert bases[i..j] == [base] + bases[i + 1..j];
      CountSplit([base], bases[i + 1..j], base);
      assert Count([base][..0], base) == 0;
    }
  }

  lemma LastHyphen(a: Text, k: nat)
    ensures var s := Suffixed(a, k); |a| < |s| && s[|a|] == MINUS && forall i :: |a| < i < |s| ==> s[i] != MINUS
  {
    var s := Suffixed(a, k);
    forall i | |a| < i < |s| ensures s[i] != MINUS {
      assert s[i] == Decimal(k)[i - |a| - 1];
    }
  }

  /** A suffix determines both its base and its number. */
  lemma SuffixedInjective(a: Text, k: nat, b: Text, l: nat)
    requires Suffixed(a, k) == Suffixed(b, l)
    ensures a == b && k == l
  {
    var s, t := Suffixed(a, k), Suffixed(b, l);
    LastHyphen(a, k);
    LastHyphen(b, l);
    assert |a| == |b|;
    assert a == s[..|a|] && b == t[..|b|];
    assert Decimal(k) == s[|a| + 1..] && Decimal(l) == t[|b| + 1..];
    ReadDecimalOfDecimal(k);
    ReadDecimalOfDecimal(l);
  }

  /** Heading `p` keeps the plain slug that heading `q` produces as a suffixed id. */
  predicate Clash(bases: seq<Text>, p: nat, q: nat)
    requires p < |bases| && q < |bases|
  {
    && Count(bases[..p], bases[p]) == 0
    && Count(bases[..q], bases[q]) > 0
    && bases[p] == Suffixed(bases[q], Count(bases[..q], bases[q]) + 1)
  }

  /** Main result: two headings share an id exactly when one has a plain slug that is the suffixed id of the other;
      two suffixed ids never coincide, nor do two plain ones. */
  lemma IdsCoincide(bases: seq<Text>, i: nat, j: nat)
    requires i < j < |bases|
    ensures IdAt(bases, i) == IdAt(bases, j) <==> Clash(bases, i, j) || Clash(bases, j, i)
  {
    hide Count, Suffixed;
    var ci, cj := Count(bases[..i], bases[i]), Count(bases[..j], bases[j]);
    if bases[i] == bases[j] {
      CountGrows(bases, i, j, bases[j]);
      if ci == 0 {
        SuffixedLonger(bases[j], cj + 1);
      }
    }
    if ci > 0 && cj > 0 && IdAt(bases, i) == IdAt(bases, j) {
      SuffixedInjective(bases[i], ci + 1, bases[j], cj + 1);
    }
  }

  lemma SuffixedLonger(base: Text, k: nat)
    ensures |Suffixed(base, k)| > |base|
  {
  }

  ghost predicate IdsUnique(bases: seq<Text>) {
    forall i, j :: 0 <= i < j < |bases| ==> IdAt(bases, i) != IdAt(bases, j)
  }

  /** No slug looks like a repetition of another. */
  ghost predicate NoLookalike(bases: seq<Text>) {
    forall p, q, k :: 0 <= p < |bases| && 0 <= q < |bases| && 2 <= k <= Count(bases, bases[q]) ==>
      bases[p] != Suffixed(bases[q], k)
  }

  /** The k-th heading with a slug. */
  lemma {:induction false} Occurrence(bases: seq<Text>, base: Text, k: nat) returns (i: nat)
    requires 1 <= k <= Count(bases, base)
    ensures i < |bases| && bases[i] == base && Count(bases[..i], base) == k - 1
    decreases |bases|
  {
    var last := |bases| - 1;
    if k <= Count(bases[..last], base) {
      i := Occurrence(bases[..last], base, k);
      assert bases[..last][..i] == bases[..i];
    } else {
      i := last;
    }
  }

  /** Main result: the ids of a page are unique exactly when no slug equals another slug followed by `-k`, with k
      between two and the number of headings of that other slug. */
  lemma UniqueExactly(bases: seq<Text>)
    ensures IdsUnique(bases) <==> NoLookalike(bases)
  {
    hide Suffixed, Count;
    if NoLookalike(bases) {
      forall i, j | 0 <= i < j < |bases| ensures IdAt(bases, i) != IdAt(bases, j) {
        IdsCoincide(bases, i, j);
        NoClash(bases, i, j);
        NoClash(bases, j, i);
      }
    }
    if IdsUnique(bases) {
      forall p, q, k | 0 <= p < |bases| && 0 <= q < |bases| && 2 <= k <= Count(bases, bases[q])
        ensures bases[p] != Suffixed(bases[q], k)
      {
        if bases[p] == Suffixed(bases[q], k) {
          LookalikeClashes(bases, p, q, k);
        }
      }
    }
  }

  lemma NoClash(bases: seq<Text>, p: nat, q: nat)
    requires p < |bases| && q < |bases| && NoLookalike(bases)
    ensures !Clash(bases, p, q)
  {
    hide Suffixed, Count;
    CountGrows(bases, q, |bases|, bases[q]);
    assert bases[..|bases|] == bases;
  }

  lemma LookalikeClashes(bases: seq<Text>, p: nat, q: nat, k: nat)
    requires p < |bases| && q < |bases| && 2 <= k <= Count(bases, bases[q]) && bases[p] == Suffixed(bases[q], k)
    ensures !IdsUnique(bases)
  {
    hide Suffixed, Count;
    CountGrows(bases, p, |bases|, bases[p]);
    assert bases[..|bases|] == bases;
    var first := Occurrence(bases, bases[p], 1);
    var repeat := Occurrence(bases, bases[q], k);
    SuffixedLonger(bases[q], k);
    assert first != repeat;
    assert IdAt(bases, first) == IdAt(bases, repeat);
  }

  lemma SlugIsBase(t: Text)
    requires IsSlug(t) && t != []
    ensures BaseId(t) == t
  {
    hide Slugify, IsSlug;
    SlugFixed(t);
  }

  lemma SuffixedSlug(a: Text, k: nat)
    requires IsSlug(a) && a != [] && a[|a| - 1] != MINUS
    ensures IsSlug(Suffixed(a, k))
  {
    var s, d := Suffixed(a, k), Decimal(k);
    assert forall i :: |a| < i < |s| ==> s[i] == d[i - |a| - 1];
    LastHyphen(a, k);
  }

  /** It does happen: whatever the slug `a`, two headings `a` and one `a-2` share an id. */
  lemma LookalikeExample(a: Text)
    requires IsSlug(a) && a != [] && a[|a| - 1] != MINUS
    ensures !IdsUnique(BaseIds([a, a, Suffixed(a, 2)]))
  {
    hide BaseId, IsSlug, Count, Suffixed, IdsUnique;
    var b := Suffixed(a, 2);
    SuffixedSlug(a, 2);
    SuffixedLonger(a, 2);
    SlugIsBase(a);
    SlugIsBase(b);
    var bases := [a, a, b];
    assert BaseIds(bases) == bases;
    CountTwo(a, b);
    LookalikeClashes(bases, 2, 0, 2);
  }

  lemma CountTwo(a: Text, b: Text)
    requires a != b
    ensures Count([a, a, b], a) == 2
  {
    var s := [a, a, b];
    assert s[..|s| - 1] == [a, a] && [a, a][..|[a, a]| - 1] == [a];
    assert [a][..|[a]| - 1] == [];
    assert Count([a], a) == 1 && Count([a, a], a) == 2;
  }

  // ------------------------------------------------------ ids in attributes

  lemma {:induction false} SubstitutePlain(t: Text)
    requires forall i :: 0 <= i < |t| ==> Entity(t[i]) == [t[i]]
    ensures Substitute(t) == t
  {
    if t != [] {
      SubstitutePlain(t[1..]);
      assert t == [t[0]] + t[1..];
    }
  }

  predicate LowerChars(s: string) {
    forall c :: c in s ==> 'a' <= c <= 'z'
  }

  lemma LiteralIsSlug(s: string)
    requires LowerChars(s)
    ensures IsSlug(Lit(s))
  {
    assert forall i :: 0 <= i < |s| ==> s[i] in s;
  }

  /** Main result: every id is a non-empty text of slug units, so writing it into an attribute without escaping is
      writing it escaped. */
  lemma IdsNeedNoEscaping(contents: seq<Text>, i: nat)
    requires i < |contents|
    ensures var id := IdAt(BaseIds(contents), i);
            id != [] && (forall k :: 0 <= k < |id| ==> IsSlugUnit(id[k])) && EscapeHtml(id) == id
  {
    hide Slugify, Count, EscapeHtml, Substitute, IdsUnique;
    LiteralIsSlug("section");
    SlugShape(contents[i]);
    var id := IdAt(BaseIds(contents), i);
    EscapeIsSubstitution(id);
    SubstitutePlain(id);
  }

  // ----------------------------------------------------------------- in full

  /** What each unit becomes, written out. */
  function EntityInFull(u: Unit): Text {
    if u == 38 then Lit("&amp;")
    else if u == 60 then Lit("&lt;")
    else if u == 62 then Lit("&gt;")
    else if u == 34 then Lit("&quot;")
    else if u == 39 then Lit("&#039;")
    else [u]
  }

  /** Main result: the escaped text is, unit by unit, the entities written out above. */
  lemma EscapeInFull(s: Text)
    ensures EscapeHtml([]) == []
    ensures s != [] ==> EscapeHtml(s) == EntityInFull(s[0]) + EscapeHtml(s[1..])
  {
    hide Lit;
    EscapeIsSubstitution([]);
    EscapeIsSubstitution(s);
    if s != [] {
      EscapeIsSubstitution(s[1..]);
    }
  }

  /** The positions before `i` that have this slug. */
  ghost function Having(bases: seq<Text>, i: nat, base: Text): set<nat>
    requires i <= |bases|
  {
    set j: nat | j < i && bases[j] == base :: j
  }

  lemma {:induction false} CountIsSet(bases: seq<Text>, i: nat, base: Text)
    requires i <= |bases|
    ensures Count(bases[..i], base) == |Having(bases, i, base)|
    decreases i
  {
    if i > 0 {
      CountIsSet(bases, i - 1, base);
      assert bases[..i][..|bases[..i]| - 1] == bases[..i - 1];
      if bases[i - 1] == base {
        assert Having(bases, i, base) == Having(bases, i - 1, base) + {i - 1};
      } else {
        assert Having(bases, i, base) == Having(bases, i - 1, base);
      }
    }
  }

  /** Main result: the id of a heading is its slug, or `section` for an empty one; when n earlier headings have the
      same one, a hyphen and the number n + 1 follow. */
  lemma IdInFull(contents: seq<Text>, i: nat)
    requires i < |contents|
    ensures var bases := BaseIds(contents);
            && bases[i] == (if Slugify(contents[i]) == [] then Lit("section") else Slugify(contents[i]))
            && IdAt(bases, i) ==
               var earlier := Having(bases, i, bases[i]);
               if earlier == {} then bases[i] else bases[i] + Lit("-") + Decimal(|earlier| + 1)
  {
    hide Slugify, Count, Decimal;
    assert Lit("-") == [45];
    var bases := BaseIds(contents);
    CountIsSet(bases, i, bases[i]);
  }
}
