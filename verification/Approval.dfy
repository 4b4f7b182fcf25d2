/** The review that has to approve a release. */
module Approval {
  import opened Strings
  import opened Json
  import opened Utf8
  import opened Canonical
  import opened Witness

  const MAX_REVIEWS := 100
  const MAX_COMMENT := 4096
  const MAX_ENVIRONMENTS := 6
  const MAX_NAME := 100

  const USER := Lit("user")
  const STATE := Lit("state")
  const COMMENT := Lit("comment")
  const TYPE := Lit("type")
  const ENVIRONMENTS := Lit("environments")
  const NAME := Lit("name")
  const NPM := Lit("npm")

  // ------------------------------------------------------------ operations

  predicate ProperComment(review: Value) {
    HasOwn(review, COMMENT) && !Get(review, COMMENT).Null? ==>
      Get(review, COMMENT).Str? && |Get(review, COMMENT).s| <= MAX_COMMENT
  }

  predicate ProperEnvironment(environment: Value) {
    && environment.Obj? && Positive(Get(environment, ID))
    && Get(environment, NAME).Str? && |Get(environment, NAME).s| <= MAX_NAME
  }

  /** The checks on one review besides its comment. */
  predicate ProperReview(review: Value) {
    var user, environments := Get(review, USER), Get(review, ENVIRONMENTS);
    && review.Obj? && user.Obj?
    && (Get(review, STATE) == Str(Lit("approved")) || Get(review, STATE) == Str(Lit("rejected")))
    && Positive(Get(user, ID))
    && (Get(user, TYPE) == Str(Lit("User")) || Get(user, TYPE) == Str(Lit("Bot")))
    && environments.Arr? && |environments.items| <= MAX_ENVIRONMENTS
    && forall i :: 0 <= i < |environments.items| ==> ProperEnvironment(environments.items[i])
  }

  /** An approval by the owner, as a user, of exactly the npm environment. */
  predicate Approves(review: Value, ownerId: Value, environmentId: Value) {
    var user, environments := Get(review, USER), Get(review, ENVIRONMENTS);
    && Get(review, STATE) == Str(Lit("approved"))
    && Get(user, TYPE) == Str(Lit("User")) && Get(user, ID) == ownerId
    && environments.Arr? && |environments.items| == 1
    && Get(environments.items[0], ID) == environmentId && Get(environments.items[0], NAME) == Str(NPM)
  }

  /** `reviews.filter(...)` with its checks: none where one of them throws. */
  function Matching(reviews: seq<Value>, ownerId: Value, environmentId: Value): Option<seq<Value>> {
    if reviews == [] then Some([])
    else if !ProperReview(reviews[0]) || !ProperComment(reviews[0]) then None
    else
      match Matching(reviews[1..], ownerId, environmentId)
      case None => None
      case Some(rest) => Some((if Approves(reviews[0], ownerId, environmentId) then [reviews[0]] else []) + rest)
  }

  /** `assertEnvironmentApproval`: whether it returns. */
  predicate Approved(reviews: Value, ownerId: Value, environmentId: Value) {
    && Positive(ownerId) && Positive(environmentId)
    && reviews.Arr? && 0 < |reviews.items| <= MAX_REVIEWS
    && CanonicalText(reviews).Some?
    && var matches := Matching(reviews.items, ownerId, environmentId);
       matches.Some? && matches.value != []
  }

  // ------------------------------------------------------ what decides it

  lemma {:induction false} MatchingExactly(reviews: seq<Value>, ownerId: Value, environmentId: Value)
    ensures var matches := Matching(reviews, ownerId, environmentId);
            (matches.Some? <==> forall i :: 0 <= i < |reviews| ==>
              ProperReview(reviews[i]) && ProperComment(reviews[i]))
    ensures var matches := Matching(reviews, ownerId, environmentId);
            matches.Some? ==>
              (matches.value != [] <==> exists i :: 0 <= i < |reviews| && Approves(reviews[i], ownerId, environmentId))
  {
    hide ProperReview, ProperComment, Approves;
    if reviews != [] {
      var rest := reviews[1..];
      MatchingExactly(rest, ownerId, environmentId);
      assert forall i :: 1 <= i < |reviews| ==> rest[i - 1] == reviews[i];
      assert forall i :: 0 <= i < |rest| ==> rest[i] == reviews[i + 1];
    }
  }

  /** The same review but for its comment, which may also be there in only one of them. */
  ghost predicate OnlyCommentDiffers(a: Value, b: Value) {
    && a.Obj? && b.Obj?
    && forall name :: name != COMMENT ==> Get(a, name) == Get(b, name)
  }

  ghost predicate OnlyCommentsDiffer(a: seq<Value>, b: seq<Value>) {
    |a| == |b| && forall i :: 0 <= i < |a| ==> OnlyCommentDiffers(a[i], b[i])
  }

  /** The same review but for the text of its comment: both have the same names. */
  ghost predicate OnlyTextDiffers(a: Value, b: Value) {
    OnlyCommentDiffers(a, b) && Names(a.fields) == Names(b.fields)
  }

  ghost predicate OnlyTextsDiffer(a: seq<Value>, b: seq<Value>) {
    |a| == |b| && forall i :: 0 <= i < |a| ==> OnlyTextDiffers(a[i], b[i])
  }

  lemma NamesAreNotComment()
    ensures USER != COMMENT && STATE != COMMENT && ENVIRONMENTS != COMMENT
  {
    assert |STATE| == 5 && |USER| == 4 && |ENVIRONMENTS| == 12 && |COMMENT| == 7;
  }

  lemma CommentIgnored(a: Value, b: Value, ownerId: Value, environmentId: Value)
    requires OnlyCommentDiffers(a, b)
    ensures ProperReview(a) <==> ProperReview(b)
    ensures Approves(a, ownerId, environmentId) <==> Approves(b, ownerId, environmentId)
  {
    hide Get;
    NamesAreNotComment();
  }

  /** Comments come in only by their form and through the bounds of the canonicaliser. */
  lemma CommentsDoNotMatter(a: seq<Value>, b: seq<Value>, ownerId: Value, environmentId: Value)
    requires OnlyCommentsDiffer(a, b) && Approved(Arr(a), ownerId, environmentId)
    ensures Approved(Arr(b), ownerId, environmentId) <==>
            CanonicalText(Arr(b)).Some? && forall i :: 0 <= i < |b| ==> ProperComment(b[i])
  {
    hide ProperReview, ProperComment, Approves, OnlyCommentDiffers, CanonicalText;
    MatchingExactly(a, ownerId, environmentId);
    MatchingExactly(b, ownerId, environmentId);
    forall i | 0 <= i < |a|
      ensures ProperReview(a[i]) <==> ProperReview(b[i])
      ensures Approves(a[i], ownerId, environmentId) <==> Approves(b[i], ownerId, environmentId)
    {
      CommentIgnored(a[i], b[i], ownerId, environmentId);
    }
  }

  // ---------------------------------- of the bounds, only the bytes see a text

  lemma {:induction false} SizeUpdated(fields: seq<Named<Value>>, k: nat, item: Value)
    requires k < |fields| && Size(item) == Size(fields[k].item)
    ensures SizeFields(fields[k := Named(fields[k].name, item)]) == SizeFields(fields)
  {
    hide Size;
    var updated := fields[k := Named(fields[k].name, item)];
    if k > 0 {
      SizeUpdated(fields[1..], k - 1, item);
      assert updated[1..] == fields[1..][k - 1 := Named(fields[k].name, item)];
    } else {
      assert updated[1..] == fields[1..];
    }
  }

  /** The review with another comment in the place of the old one. */
  function WithComment(review: Value, comment: Value): Value
    requires HasOwn(review, COMMENT)
  {
    var k := Position(review.fields, COMMENT);
    Obj(review.fields[k := Named(COMMENT, comment)])
  }

  /** A comment is one value that is never too large by itself. */
  lemma CommentBounded(review: Value)
    requires HasOwn(review, COMMENT) && ProperComment(review)
    ensures Bounded(Get(review, COMMENT), 2) && Size(Get(review, COMMENT)) == 1
  {
  }

  lemma WithCommentBounded(review: Value, comment: Value)
    requires HasOwn(review, COMMENT) && Bounded(review, 1) && Size(Get(review, COMMENT)) == 1
    requires Bounded(comment, 2) && Size(comment) == 1
    ensures Bounded(WithComment(review, comment), 1) && Size(WithComment(review, comment)) == Size(review)
  {
    var fields, k := review.fields, Position(review.fields, COMMENT);
    SizeUpdated(fields, k, comment);
    var updated := fields[k := Named(COMMENT, comment)];
    hide Position, Size, SizeFields;
    forall i | 0 <= i < |updated| ensures Bounded(updated[i].item, 2) {
      if i != k {
        assert updated[i] == fields[i];
      }
    }
    SizeOfObject(fields);
    SizeOfObject(updated);
  }

  lemma SizeOfObject(fields: seq<Named<Value>>)
    ensures Size(Obj(fields)) == 1 + SizeFields(fields)
  {
  }

  lemma WithCommentSame(a: Value, b: Value)
    requires OnlyTextDiffers(a, b) && Distinct(a) && Distinct(b) && HasOwn(a, COMMENT)
    ensures Distinct(WithComment(a, Get(b, COMMENT))) && Same(WithComment(a, Get(b, COMMENT)), b)
  {
    hide Position, Get;
    var comment, k := Get(b, COMMENT), Position(a.fields, COMMENT);
    var updated := a.fields[k := Named(COMMENT, comment)];
    DistinctGet(b, COMMENT);
    assert forall i :: 0 <= i < |updated| ==> updated[i].name == a.fields[i].name;
    assert Names(updated) == Names(a.fields);
    forall i | 0 <= i < |updated| ensures Distinct(updated[i].item) && Same(updated[i].item, Get(b, updated[i].name)) {
      if i == k {
        SameReflexive(comment);
      } else {
        GetAt(a, i);
        PositionUnique(a.fields, k);
        assert updated[i] == a.fields[i];
        assert a.fields[i].name != COMMENT;
        SameReflexive(a.fields[i].item);
      }
    }
  }

  lemma GetAt(v: Value, i: nat)
    requires v.Obj? && DistinctNames(v.fields) && i < |v.fields|
    ensures Get(v, v.fields[i].name) == v.fields[i].item
  {
    PositionUnique(v.fields, i);
  }

  lemma SameReviews(a: Value, b: Value)
    requires OnlyTextDiffers(a, b) && Distinct(a) && Distinct(b) && !HasOwn(a, COMMENT)
    ensures Same(a, b)
  {
    hide Get;
    forall i | 0 <= i < |a.fields| ensures Same(a.fields[i].item, Get(b, a.fields[i].name)) {
      GetAt(a, i);
      assert a.fields[i].name in Names(a.fields);
      SameReflexive(a.fields[i].item);
    }
  }

  lemma SameBounds(a: Value, b: Value, depth: nat)
    requires Distinct(a) && Distinct(b) && Same(a, b)
    ensures Bounded(a, depth) <==> Bounded(b, depth)
    ensures Size(a) == Size(b)
  {
    hide Bounded, Size;
    ArrangeFaithful(a, b);
    ArrangeBounded(a, depth);
    ArrangeBounded(b, depth);
    ArrangeSize(a);
    ArrangeSize(b);
  }

  lemma ReviewBounds(a: Value, b: Value)
    requires OnlyTextDiffers(a, b) && Distinct(a) && Distinct(b) && ProperComment(a) && ProperComment(b)
    requires Bounded(a, 1)
    ensures Bounded(b, 1) && Size(b) == Size(a)
  {
    hide Bounded, Size, Get, Same, Distinct, ProperComment;
    if HasOwn(a, COMMENT) {
      CommentBounded(a);
      CommentBounded(b);
      WithCommentBounded(a, Get(b, COMMENT));
      WithCommentSame(a, b);
      SameBounds(WithComment(a, Get(b, COMMENT)), b, 1);
    } else {
      SameReviews(a, b);
      SameBounds(a, b, 1);
    }
  }

  lemma {:induction false} SizesEqual(a: seq<Value>, b: seq<Value>)
    requires |a| == |b| && forall i :: 0 <= i < |a| ==> Size(a[i]) == Size(b[i])
    ensures SizeItems(a) == SizeItems(b)
  {
    hide Size;
    if a != [] {
      SizesEqual(a[1..], b[1..]);
    }
  }

  lemma HistoryWithin(a: seq<Value>, b: seq<Value>)
    requires |a| == |b| && Within(Arr(a))
    requires forall i :: 0 <= i < |a| ==> (Bounded(a[i], 1) ==> Bounded(b[i], 1) && Size(b[i]) == Size(a[i]))
    ensures Within(Arr(b))
  {
    assert forall i :: 0 <= i < |a| ==> Bounded(a[i], 1);
    SizesEqual(a, b);
  }

  /** The bytes of the canonical text, whatever the bounds say. */
  function CanonicalSize(v: Value): nat {
    |Encode(Stringify(Arrange(v), 0, 0))|
  }

  /** Main result: with the comments in their places and of proper form, what they say matters only by its length.
      The new history is approved exactly when its canonical text has at most 262144 bytes. */
  lemma OnlyBytesMatter(a: seq<Value>, b: seq<Value>, ownerId: Value, environmentId: Value)
    requires OnlyTextsDiffer(a, b) && Approved(Arr(a), ownerId, environmentId)
    requires forall i :: 0 <= i < |b| ==> Distinct(a[i]) && Distinct(b[i]) && ProperComment(b[i])
    ensures Approved(Arr(b), ownerId, environmentId) <==> CanonicalSize(Arr(b)) <= MAX_BYTES
  {
    hide Within, Bounded, Size, Distinct, OnlyCommentDiffers, ProperComment, ProperReview, Approves, Stringify,
         Arrange, Encode;
    CommentsDoNotMatter(a, b, ownerId, environmentId);
    MatchingExactly(a, ownerId, environmentId);
    forall i | 0 <= i < |a| && Bounded(a[i], 1) ensures Bounded(b[i], 1) && Size(b[i]) == Size(a[i]) {
      ReviewBounds(a[i], b[i]);
    }
    HistoryWithin(a, b);
  }

  // ---------------------------------------------- when comments do matter

  lemma {:induction false} QuoteBodyLonger(s: Text)
    ensures |QuoteBody(s)| >= |s|
  {
    if s != [] {
      if IsPair(s) {
        QuoteBodyLonger(s[2..]);
      } else {
        QuoteBodyLonger(s[1..]);
      }
    }
  }

  lemma {:induction false} BytesLonger(t: Text)
    ensures |Encode(t)| >= |t|
  {
    if t != [] {
      if IsPair(t) {
        BytesLonger(t[2..]);
      } else {
        BytesLonger(t[1..]);
      }
    }
  }

  /** An object prints to at least what any of its items prints to. */
  lemma {:induction false} FieldInside(fields: seq<Named<Value>>, k: nat, level: nat)
    requires k < |fields|
    ensures |StringifyFields(fields, 0, level)| >= |Stringify(fields[k].item, 0, level)|
    decreases |fields|
  {
    hide Stringify, Quote;
    if k > 0 {
      FieldInside(fields[1..], k - 1, level);
    }
  }

  lemma {:induction false} ItemsAtLeast(items: seq<Value>, level: nat, least: nat)
    requires items != [] && forall i :: 0 <= i < |items| ==> |Stringify(items[i], 0, level)| >= least
    ensures |StringifyItems(items, 0, level)| >= |items| * least
    decreases |items|
  {
    hide Stringify;
    if |items| > 1 {
      ItemsAtLeast(items[1..], level, least);
      assert |items| * least == (|items| - 1) * least + least;
    }
  }

  predicate HasComment(review: Value, least: nat) {
    HasOwn(review, COMMENT) && Get(review, COMMENT).Str? && |Get(review, COMMENT).s| >= least
  }

  lemma CommentPrinted(review: Value, level: nat, least: nat)
    requires HasComment(review, least)
    ensures |Stringify(Arrange(review), 0, level)| >= least
  {
    hide FieldOrder, StringifyFields, Quote;
    var k := Position(review.fields, COMMENT);
    var arranged := ArrangeItems(review.fields);
    var ordered := FieldOrder(arranged);
    FieldOrderPermutes(arranged);
    var comment := Get(review, COMMENT);
    assert k < |review.fields| && review.fields[k].item == comment && Arrange(comment) == comment;
    assert arranged[k] == Named(COMMENT, comment);
    assert arranged[k] in ordered;
    var p :| 0 <= p < |ordered| && ordered[p] == arranged[k];
    FieldInside(ordered, p, level + 1);
    QuotedLonger(comment.s);
    assert Stringify(comment, 0, level + 1) == Quote(comment.s);
  }

  lemma QuotedLonger(s: Text)
    ensures |Quote(s)| >= |s|
  {
    QuoteBodyLonger(s);
  }

  /** Comments that are proper one by one can still be too long together. */
  lemma LongCommentsRefused(reviews: seq<Value>, least: nat, ownerId: Value, environmentId: Value)
    requires forall i :: 0 <= i < |reviews| ==> HasComment(reviews[i], least)
    requires |reviews| * least > MAX_BYTES
    ensures !Approved(Arr(reviews), ownerId, environmentId)
  {
    hide Within, HasComment, Matching, Encode, StringifyItems;
    var arranged := Arrange(Arr(reviews));
    forall i | 0 <= i < |reviews| ensures |Stringify(arranged.items[i], 0, 1)| >= least {
      CommentPrinted(reviews[i], 1, least);
    }
    ItemsAtLeast(arranged.items, 1, least);
    BytesLonger(Stringify(arranged, 0, 0));
  }

  /** An approved history of 65 or more reviews is refused once each comment is as long as a comment may be. */
  lemma CommentsCanMatter(a: seq<Value>, b: seq<Value>, ownerId: Value, environmentId: Value)
    requires OnlyCommentsDiffer(a, b) && Approved(Arr(a), ownerId, environmentId) && |a| >= 65
    requires forall i :: 0 <= i < |b| ==> ProperComment(b[i]) && HasComment(b[i], MAX_COMMENT)
    ensures !Approved(Arr(b), ownerId, environmentId) && CanonicalText(Arr(b)) == None
  {
    hide Approved, CanonicalText, ProperComment, HasComment, OnlyCommentDiffers;
    LongCommentsRefused(b, MAX_COMMENT, ownerId, environmentId);
    CommentsDoNotMatter(a, b, ownerId, environmentId);
  }

  /** A review without a comment is at the bound on names already; with one it is beyond, whatever the comment says. */
  lemma AddedCommentCanMatter(a: seq<Value>, b: seq<Value>, i: nat, ownerId: Value, environmentId: Value)
    requires OnlyCommentsDiffer(a, b) && Approved(Arr(a), ownerId, environmentId)
    requires i < |a| && Distinct(a[i]) && Distinct(b[i])
    requires |a[i].fields| == MAX_NAMES && !HasOwn(a[i], COMMENT) && HasOwn(b[i], COMMENT)
    ensures !Approved(Arr(b), ownerId, environmentId)
  {
    hide Matching, Get, Stringify, Arrange, Encode;
    assert Bounded(a[i], 1);
    MoreNames(a[i], b[i]);
    assert !Bounded(b[i], 1);
  }

  lemma MoreNames(a: Value, b: Value)
    requires OnlyCommentDiffers(a, b) && Distinct(a) && Distinct(b) && Bounded(a, 1)
    requires !HasOwn(a, COMMENT) && HasOwn(b, COMMENT)
    ensures |b.fields| > |a.fields|
  {
    hide Get;
    forall name | name in Names(a.fields) ensures name in Names(b.fields) {
      var k :| 0 <= k < |a.fields| && a.fields[k].name == name;
      GetAt(a, k);
      assert !a.fields[k].item.Foreign?;
      PresentIsOwn(b, name);
    }
    NamesCount(a.fields);
    NamesCount(b.fields);
    assert Names(a.fields) + {COMMENT} <= Names(b.fields);
    SmallerSet(Names(a.fields) + {COMMENT}, Names(b.fields));
  }

  lemma PresentIsOwn(v: Value, name: Text)
    ensures !Get(v, name).Foreign? ==> HasOwn(v, name)
  {
  }

  lemma SmallerSet(a: set<Text>, b: set<Text>)
    requires a <= b
    ensures |a| <= |b|
  {
    assert b == a + (b - a);
  }

  // ------------------------------------------------------------ who approves what

  /** A whole number from 1 to 9007199254740991. */
  predicate Identity(v: Value) {
    v.Num? && v.n.Whole? && 1 <= v.n.n <= 9007199254740991
  }

  predicate TextUpTo(v: Value, most: nat) {
    v.Str? && |v.s| <= most
  }

  /** The form every review must have, whatever it says. */
  predicate ReviewInFull(review: Value) {
    var user, environments := Get(review, Lit("user")), Get(review, Lit("environments"));
    && review.Obj? && user.Obj? && Identity(Get(user, Lit("id")))
    && (Get(review, Lit("state")) == Str(Lit("approved")) || Get(review, Lit("state")) == Str(Lit("rejected")))
    && (Get(user, Lit("type")) == Str(Lit("User")) || Get(user, Lit("type")) == Str(Lit("Bot")))
    && (HasOwn(review, Lit("comment")) ==>
          Get(review, Lit("comment")) == Null || TextUpTo(Get(review, Lit("comment")), 4096))
    && environments.Arr? && |environments.items| <= 6
    && forall i :: 0 <= i < |environments.items| ==>
         var e := environments.items[i];
         e.Obj? && Identity(Get(e, Lit("id"))) && TextUpTo(Get(e, Lit("name")), 100)
  }

  /** The owner, as a user and not as a bot, approved the environment `npm` and no other. */
  predicate OwnerApproves(review: Value, ownerId: Value, environmentId: Value) {
    var user, environments := Get(review, Lit("user")), Get(review, Lit("environments"));
    && Get(review, Lit("state")) == Str(Lit("approved"))
    && Get(user, Lit("type")) == Str(Lit("User")) && Get(user, Lit("id")) == ownerId
    && environments.Arr? && |environments.items| == 1
    && Get(environments.items[0], Lit("id")) == environmentId
    && Get(environments.items[0], Lit("name")) == Str(Lit("npm"))
  }

  lemma ReviewExactly(review: Value)
    ensures ProperReview(review) && ProperComment(review) <==> ReviewInFull(review)
  {
    hide Get, HasOwn;
  }

  lemma OwnerExactly(review: Value, ownerId: Value, environmentId: Value)
    ensures Approves(review, ownerId, environmentId) <==> OwnerApproves(review, ownerId, environmentId)
  {
    hide Get;
  }

  /** Main result: a history is approved exactly when it has one to a hundred reviews of proper form that fit the
      canonicaliser, and the owner approves the npm environment in one of them. */
  lemma ApprovedInFull(reviews: Value, ownerId: Value, environmentId: Value)
    ensures Approved(reviews, ownerId, environmentId) <==>
            && Identity(ownerId) && Identity(environmentId)
            && reviews.Arr? && 1 <= |reviews.items| <= 100 && CanonicalText(reviews).Some?
            && (forall i :: 0 <= i < |reviews.items| ==> ReviewInFull(reviews.items[i]))
            && exists i :: 0 <= i < |reviews.items| && OwnerApproves(reviews.items[i], ownerId, environmentId)
  {
    hide ProperReview, ProperComment, Approves, ReviewInFull, OwnerApproves, CanonicalText;
    if reviews.Arr? {
      MatchingExactly(reviews.items, ownerId, environmentId);
      forall review
        ensures ProperReview(review) && ProperComment(review) <==> ReviewInFull(review)
        ensures Approves(review, ownerId, environmentId) <==> OwnerApproves(review, ownerId, environmentId)
      {
        ReviewExactly(review);
        OwnerExactly(review, ownerId, environmentId);
      }
    }
  }
}
