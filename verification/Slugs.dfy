/** How the documentation build turns the HTML of a heading into plain text and into a slug. */
module Slugs {
  import opened Strings

  // ------------------------------------------------------------ operations

  /** `\s`, which is also what `trim` removes. */
  predicate IsSpace(u: Unit) {
    || 9 <= u <= 13 || u == SPACE || u == 0xA0 || u == 0x1680 || 0x2000 <= u <= 0x200A
    || u == 0x2028 || u == 0x2029 || u == 0x202F || u == 0x205F || u == 0x3000 || u == 0xFEFF
  }

  predicate IsMinus(u: Unit) {
    u == MINUS
  }

  /** `replaceAll(/<[^>]*>/, " ")`: from each `<` to the next `>`, as long as there is one. */
  function StripTags(t: Text): Text
    decreases |t|
  {
    var open := IndexOf(t, LESS);
    if open == |t| then t
    else
      var length := IndexOf(t[open..], GREATER);
      if open + length == |t| then t
      else t[..open] + [SPACE] + StripTags(t[open + length + 1..])
  }

  /** `replaceAll(/x+/, r)`: every longest run becomes one unit. */
  function Squeeze(t: Text, run: Unit -> bool, r: Unit): Text {
    if t == [] then []
    else
      (if !run(t[0]) then [t[0]] else if |t| > 1 && run(t[1]) then [] else [r]) + Squeeze(t[1..], run, r)
  }

  function TrimStart(t: Text): (r: Text)
    ensures |r| <= |t| && r == t[|t| - |r|..]
    ensures r != [] ==> !IsSpace(r[0])
    ensures forall i :: 0 <= i < |t| - |r| ==> IsSpace(t[i])
  {
    if t != [] && IsSpace(t[0]) then TrimStart(t[1..]) else t
  }

  function TrimEnd(t: Text): (r: Text)
    ensures |r| <= |t| && r == t[..|r|]
    ensures r != [] ==> !IsSpace(r[|r| - 1])
    ensures forall i :: |r| <= i < |t| ==> IsSpace(t[i])
  {
    if t != [] && IsSpace(t[|t| - 1]) then TrimEnd(t[..|t| - 1]) else t
  }

  function Trim(t: Text): Text {
    TrimEnd(TrimStart(t))
  }

  /** `stripHtml`. */
  function StripHtml(t: Text): Text {
    Trim(Squeeze(StripTags(t), IsSpace, SPACE))
  }

  /** `toLowerCase` of one unit, as far as it matters here: besides A to Z only the Kelvin sign and the dotted capital I
      have lower-case forms with ASCII in them; whatever else changes is outside ASCII before and after. */
  function Lower(u: Unit): Text {
    if UPPER_A <= u <= UPPER_Z then [u + 32]
    else if u == 0x212A then [107]
    else if u == 0x130 then [105, 0x307]
    else [u]
  }

  predicate IsSlugUnit(u: Unit) {
    LOWER_A <= u <= LOWER_Z || IsDigit(u) || u == MINUS
  }

  /** `replaceAll(/[^a-z0-9\s-]/, "")`. */
  function Kept(t: Text): Text {
    if t == [] then [] else (if IsSlugUnit(t[0]) || IsSpace(t[0]) then [t[0]] else []) + Kept(t[1..])
  }

  function LowerCase(t: Text): Text {
    if t == [] then [] else Lower(t[0]) + LowerCase(t[1..])
  }

  /** `slugify`. */
  function Slugify(t: Text): Text {
    Squeeze(Squeeze(Trim(Kept(LowerCase(StripHtml(t)))), IsSpace, MINUS), IsMinus, MINUS)
  }

  // ---------------------------------------------------- shapes of the results

  /** No tag remains: no `<` has a `>` anywhere after it. */
  ghost predicate TagFree(t: Text) {
    forall i, j :: 0 <= i < j < |t| && t[i] == LESS ==> t[j] != GREATER
  }

  /** Runs have length one and consist of `r`. */
  ghost predicate Squeezed(t: Text, run: Unit -> bool, r: Unit) {
    && (forall i :: 0 <= i < |t| && run(t[i]) ==> t[i] == r)
    && (forall i, j :: 0 <= i < j < |t| && j == i + 1 && run(t[i]) ==> !run(t[j]))
  }

  ghost predicate Trimmed(t: Text) {
    t != [] ==> !IsSpace(t[0]) && !IsSpace(t[|t| - 1])
  }

  /** What `stripHtml` leaves. */
  ghost predicate IsStripped(t: Text) {
    TagFree(t) && Squeezed(t, IsSpace, SPACE) && Trimmed(t)
  }

  /** What `slugify` leaves: lower-case ASCII letters, digits and hyphens, no two hyphens in a row. */
  ghost predicate IsSlug(t: Text) {
    (forall i :: 0 <= i < |t| ==> IsSlugUnit(t[i])) && Squeezed(t, IsMinus, MINUS)
  }

  // -------------------------------------------------------------- squeezing

  lemma {:induction false} SqueezeUnits(t: Text, run: Unit -> bool, r: Unit)
    ensures forall x :: x in Squeeze(t, run, r) ==> x == r || (x in t && !run(x))
  {
    if t != [] {
      SqueezeUnits(t[1..], run, r);
    }
  }

  lemma {:induction false} SqueezeSqueezed(t: Text, run: Unit -> bool, r: Unit)
    requires run(r)
    ensures var s := Squeeze(t, run, r);
            Squeezed(s, run, r) && (t != [] ==> s != [] && run(s[0]) == run(t[0]))
  {
    if t != [] {
      SqueezeSqueezed(t[1..], run, r);
      assert |t| > 1 ==> t[1..][0] == t[1];
    }
  }

  lemma {:induction false} SqueezeFixed(t: Text, run: Unit -> bool, r: Unit)
    requires Squeezed(t, run, r)
    ensures Squeeze(t, run, r) == t
  {
    if t != [] {
      assert forall i :: 0 <= i < |t[1..]| ==> t[1..][i] == t[i + 1];
      SqueezeFixed(t[1..], run, r);
      assert t == [t[0]] + t[1..];
    }
  }

  lemma {:induction false} SqueezeTagFree(t: Text, run: Unit -> bool, r: Unit)
    requires TagFree(t) && r != LESS && r != GREATER
    ensures TagFree(Squeeze(t, run, r))
  {
    if t != [] {
      assert forall i :: 0 <= i < |t[1..]| ==> t[1..][i] == t[i + 1];
      SqueezeTagFree(t[1..], run, r);
      SqueezeUnits(t[1..], run, r);
      var s := Squeeze(t[1..], run, r);
      if t[0] == LESS {
        assert forall j :: 0 <= j < |s| ==> s[j] in s;
      }
    }
  }

  // --------------------------------------------------------------- the text

  lemma {:induction false} StripTagsTagFree(t: Text)
    ensures TagFree(StripTags(t))
    decreases |t|
  {
    var open := IndexOf(t, LESS);
    if open < |t| {
      var length := IndexOf(t[open..], GREATER);
      if open + length == |t| {
        NoTagLeft(t, open);
      } else {
        StripTagsTagFree(t[open + length + 1..]);
        TagFreeAfter(t[..open] + [SPACE], StripTags(t[open + length + 1..]));
      }
    }
  }

  lemma NoTagLeft(t: Text, open: nat)
    requires open < |t| && LESS !in t[..open] && GREATER !in t[open..]
    ensures TagFree(t)
  {
    assert forall i :: 0 <= i < open ==> t[..open][i] == t[i];
    assert forall j :: open <= j < |t| ==> t[open..][j - open] == t[j];
  }

  lemma TagFreeAfter(a: Text, b: Text)
    requires LESS !in a && TagFree(b)
    ensures TagFree(a + b)
  {
    var t := a + b;
    assert forall i :: 0 <= i < |a| ==> t[i] == a[i];
    assert forall i :: |a| <= i < |t| ==> t[i] == b[i - |a|];
  }

  lemma StripTagsFixed(t: Text)
    requires TagFree(t)
    ensures StripTags(t) == t
  {
    var open := IndexOf(t, LESS);
    if open < |t| {
      var rest := t[open..];
      forall j | 0 <= j < |rest| ensures rest[j] != GREATER {
        assert rest[j] == t[open + j];
      }
      assert IndexOf(rest, GREATER) == |rest|;
    }
  }

  lemma SliceKeeps(t: Text, from: nat, to: nat, run: Unit -> bool, r: Unit)
    requires from <= to <= |t|
    ensures TagFree(t) ==> TagFree(t[from..to])
    ensures Squeezed(t, run, r) ==> Squeezed(t[from..to], run, r)
    ensures forall x :: x in t[from..to] ==> x in t
  {
  }

  lemma TrimSlice(t: Text) returns (from: nat, to: nat)
    ensures from <= to <= |t| && Trim(t) == t[from..to] && Trimmed(Trim(t))
  {
    var a := TrimStart(t);
    from, to := |t| - |a|, |t| - |a| + |TrimEnd(a)|;
    assert TrimEnd(a) == a[..|TrimEnd(a)|];
    assert TrimEnd(a) != [] ==> TrimEnd(a)[0] == a[0];
  }

  lemma TrimKeeps(t: Text, run: Unit -> bool, r: Unit)
    ensures Trimmed(Trim(t))
    ensures TagFree(t) ==> TagFree(Trim(t))
    ensures Squeezed(t, run, r) ==> Squeezed(Trim(t), run, r)
    ensures forall x :: x in Trim(t) ==> x in t
  {
    hide Trim, Trimmed, TagFree, Squeezed;
    var from, to := TrimSlice(t);
    SliceKeeps(t, from, to, run, r);
  }

  lemma TrimFixed(t: Text)
    requires Trimmed(t)
    ensures Trim(t) == t
  {
  }

  /** Main result: `stripHtml` leaves exactly the texts without a tag, without spaces at the ends and with single plain
      spaces inside, and leaves those alone. */
  lemma StripHtmlExact(t: Text)
    ensures IsStripped(t) <==> exists s :: StripHtml(s) == t
    ensures IsStripped(t) ==> StripHtml(t) == t
  {
    hide StripTags, Squeeze, Trim;
    if IsStripped(t) {
      StripTagsFixed(t);
      SqueezeFixed(t, IsSpace, SPACE);
      TrimFixed(t);
      assert StripHtml(t) == t;
    }
    if s :| StripHtml(s) == t {
      StrippedShape(s);
    }
  }

  lemma StrippedShape(s: Text)
    ensures IsStripped(StripHtml(s))
  {
    hide StripTags, Squeeze, Trim;
    StripTagsTagFree(s);
    SqueezeTagFree(StripTags(s), IsSpace, SPACE);
    SqueezeSqueezed(StripTags(s), IsSpace, SPACE);
    TrimKeeps(Squeeze(StripTags(s), IsSpace, SPACE), IsSpace, SPACE);
  }

  // --------------------------------------------------------------- the slug

  lemma {:induction false} KeptUnits(t: Text)
    ensures forall x :: x in Kept(t) ==> IsSlugUnit(x) || IsSpace(x)
  {
    if t != [] {
      KeptUnits(t[1..]);
    }
  }

  lemma {:induction false} SlugUnitsStay(t: Text)
    requires forall i :: 0 <= i < |t| ==> IsSlugUnit(t[i])
    ensures LowerCase(t) == t && Kept(t) == t
  {
    if t != [] {
      SlugUnitsStay(t[1..]);
      assert t == [t[0]] + t[1..];
    }
  }

  lemma SlugShape(s: Text)
    ensures IsSlug(Slugify(s))
  {
    hide Squeeze, Trim, LowerCase, Kept, StripHtml;
    var kept := Kept(LowerCase(StripHtml(s)));
    KeptUnits(LowerCase(StripHtml(s)));
    TrimKeeps(kept, IsSpace, SPACE);
    SqueezeUnits(Trim(kept), IsSpace, MINUS);
    var joined := Squeeze(Trim(kept), IsSpace, MINUS);
    SqueezeUnits(joined, IsMinus, MINUS);
    SqueezeSqueezed(joined, IsMinus, MINUS);
    var slug := Slugify(s);
    assert forall i :: 0 <= i < |slug| ==> slug[i] in slug;
  }

  /** A slug is its own slug. */
  lemma SlugFixed(t: Text)
    requires IsSlug(t)
    ensures Slugify(t) == t
  {
    hide StripTags, Squeeze, Trim, LowerCase, Kept, StripHtml;
    StripHtmlExact(t);
    SlugUnitsStay(t);
    TrimFixed(t);
    SqueezeFixed(t, IsSpace, MINUS);
    SqueezeFixed(t, IsMinus, MINUS);
  }

  /** Main result: slugs are exactly the texts of slug units without two hyphens in a row, and slugging a slug changes
      nothing. */
  lemma SlugExact(t: Text)
    ensures IsSlug(t) <==> exists s :: Slugify(s) == t
    ensures Slugify(Slugify(t)) == Slugify(t)
  {
    hide Slugify, IsSlug;
    if IsSlug(t) {
      SlugFixed(t);
      assert Slugify(t) == t;
    }
    if s :| Slugify(s) == t {
      SlugShape(s);
    }
    SlugShape(t);
    SlugFixed(Slugify(t));
  }
}
