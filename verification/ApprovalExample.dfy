/** Approved histories exist, and so do those that a comment turns into refused ones. */
module ApprovalExample {
  import opened Strings
  import opened Numbers
  import opened Json
  import opened Utf8
  import opened Canonical
  import opened Witness
  import opened PrintedSize
  import opened Approval

  // ------------------------------------------------------------- the review

  function User(ownerId: int): Value {
    Obj([Named(ID, Num(Whole(ownerId))), Named(TYPE, Str(Lit("User")))])
  }

  function Environment(environmentId: int): Value {
    Obj([Named(ID, Num(Whole(environmentId))), Named(NAME, Str(NPM))])
  }

  /** Names that mean nothing to the check: numerals. */
  function ExtraKeys(extra: nat): seq<Text> {
    seq(extra, i requires 0 <= i < extra => Decimal(i))
  }

  function Keys(extra: nat, comment: Option<Text>): seq<Text> {
    [USER, STATE, ENVIRONMENTS] + ExtraKeys(extra) + if comment.Some? then [COMMENT] else []
  }

  function Items(ownerId: int, environmentId: int, extra: nat, comment: Option<Text>): (items: seq<Value>)
    ensures |items| == |Keys(extra, comment)|
  {
    [User(ownerId), Str(Lit("approved")), Arr([Environment(environmentId)])] + seq(extra, _ => Null) +
    if comment.Some? then [Str(comment.value)] else []
  }

  /** An approval by the owner with some extra names, and perhaps a comment. */
  function Review(ownerId: int, environmentId: int, extra: nat, comment: Option<Text>): Value {
    var keys, items := Keys(extra, comment), Items(ownerId, environmentId, extra, comment);
    Obj(seq(|keys|, i requires 0 <= i < |keys| => Named(keys[i], items[i])))
  }

  predicate Ids(ownerId: int, environmentId: int) {
    0 < ownerId <= MAX_SAFE && 0 < environmentId <= MAX_SAFE
  }

  lemma FixedKeysDiffer()
    ensures AllDifferent([USER, STATE, ENVIRONMENTS, COMMENT])
    ensures !IsDigit(USER[0]) && !IsDigit(STATE[0]) && !IsDigit(ENVIRONMENTS[0]) && !IsDigit(COMMENT[0])
    ensures USER != [] && STATE != [] && ENVIRONMENTS != [] && COMMENT != []
  {
    assert |USER| == 4 && |STATE| == 5 && |ENVIRONMENTS| == 12 && |COMMENT| == 7;
  }

  lemma ExtraKeysDiffer(extra: nat)
    ensures AllDifferent(ExtraKeys(extra))
    ensures forall i :: 0 <= i < extra ==> ExtraKeys(extra)[i] != [] && IsDigit(ExtraKeys(extra)[i][0])
  {
    hide Decimal;
    var keys := ExtraKeys(extra);
    forall i, j | 0 <= i < j < |keys| ensures keys[i] != keys[j] {
      ReadDecimalOfDecimal(i);
      ReadDecimalOfDecimal(j);
    }
  }

  lemma KeysDiffer(extra: nat, comment: Option<Text>)
    ensures AllDifferent(Keys(extra, comment))
  {
    hide ExtraKeys;
    FixedKeysDiffer();
    ExtraKeysDiffer(extra);
    var fixed := [USER, STATE, ENVIRONMENTS, COMMENT];
    assert fixed[0] == USER && fixed[1] == STATE && fixed[2] == ENVIRONMENTS && fixed[3] == COMMENT;
    hide USER, STATE, ENVIRONMENTS, COMMENT;
    var extras, keys := ExtraKeys(extra), Keys(extra, comment);
    assert |extras| == extra by {
      ExtraCount(extra);
    }
    assert forall i :: 3 <= i < 3 + extra ==> keys[i] == extras[i - 3];
  }

  lemma ExtraCount(extra: nat)
    ensures |ExtraKeys(extra)| == extra
  {
  }

  lemma ReviewFields(ownerId: int, environmentId: int, extra: nat, comment: Option<Text>)
    ensures var review := Review(ownerId, environmentId, extra, comment);
            && DistinctNames(review.fields) && |review.fields| == 3 + extra + (if comment.Some? then 1 else 0)
            && Get(review, USER) == User(ownerId) && Get(review, STATE) == Str(Lit("approved"))
            && Get(review, ENVIRONMENTS) == Arr([Environment(environmentId)])
            && (HasOwn(review, COMMENT) <==> comment.Some?)
            && (comment.Some? ==> Get(review, COMMENT) == Str(comment.value))
  {
    hide Get, AllDifferent, User, Environment, ExtraKeys;
    var review, keys := Review(ownerId, environmentId, extra, comment), Keys(extra, comment);
    var items := Items(ownerId, environmentId, extra, comment);
    KeysDiffer(extra, comment);
    ExtraCount(extra);
    FieldsByKey(review.fields, keys);
    assert keys[0] == USER && keys[1] == STATE && keys[2] == ENVIRONMENTS;
    if comment.Some? {
      assert keys[3 + extra] == COMMENT;
      assert review.fields[3 + extra].name == COMMENT;
    } else {
      NoComment(extra);
      assert forall i :: 0 <= i < |keys| ==> review.fields[i].name == keys[i];
    }
  }

  lemma NoComment(extra: nat)
    ensures COMMENT !in Keys(extra, None)
  {
    hide ExtraKeys;
    FixedKeysDiffer();
    ExtraKeysDiffer(extra);
    ExtraCount(extra);
    var fixed := [USER, STATE, ENVIRONMENTS, COMMENT];
    assert fixed[0] == USER && fixed[1] == STATE && fixed[2] == ENVIRONMENTS && fixed[3] == COMMENT;
    hide USER, STATE, ENVIRONMENTS, COMMENT;
    var extras, keys := ExtraKeys(extra), Keys(extra, None);
    assert forall i :: 3 <= i < 3 + extra ==> keys[i] == extras[i - 3];
  }

  lemma UserFields(ownerId: int)
    ensures Get(User(ownerId), ID) == Num(Whole(ownerId)) && Get(User(ownerId), TYPE) == Str(Lit("User"))
    ensures DistinctNames(User(ownerId).fields)
  {
    hide Get;
    assert |ID| == 2 && |TYPE| == 4;
    var keys := [ID, TYPE];
    FieldsByKey(User(ownerId).fields, keys);
    assert Get(User(ownerId), keys[0]) == Num(Whole(ownerId)) && Get(User(ownerId), keys[1]) == Str(Lit("User"));
  }

  lemma EnvironmentFields(environmentId: int)
    ensures Get(Environment(environmentId), ID) == Num(Whole(environmentId))
    ensures Get(Environment(environmentId), NAME) == Str(NPM)
    ensures DistinctNames(Environment(environmentId).fields)
  {
    hide Get;
    assert |ID| == 2 && |NAME| == 4;
    var keys := [ID, NAME];
    FieldsByKey(Environment(environmentId).fields, keys);
    assert Get(Environment(environmentId), keys[0]) == Num(Whole(environmentId));
    assert Get(Environment(environmentId), keys[1]) == Str(NPM);
  }

  lemma UserDistinct(ownerId: int)
    ensures Distinct(User(ownerId))
  {
    UserFields(ownerId);
    hide Get;
    var user := User(ownerId);
    assert Distinct(user.fields[0].item) && Distinct(user.fields[1].item);
  }

  lemma EnvironmentDistinct(environmentId: int)
    ensures Distinct(Environment(environmentId)) && Distinct(Arr([Environment(environmentId)]))
  {
    EnvironmentFields(environmentId);
    hide Get;
    var environment := Environment(environmentId);
    assert Distinct(environment.fields[0].item) && Distinct(environment.fields[1].item);
    assert Distinct(environment);
  }

  lemma ReviewDistinct(ownerId: int, environmentId: int, extra: nat, comment: Option<Text>)
    ensures Distinct(Review(ownerId, environmentId, extra, comment))
  {
    hide Get, Names, ExtraKeys;
    ReviewFields(ownerId, environmentId, extra, comment);
    UserFields(ownerId);
    EnvironmentFields(environmentId);
    UserDistinct(ownerId);
    EnvironmentDistinct(environmentId);
  }

  /** The review passes every check and approves. */
  lemma ReviewApproves(ownerId: int, environmentId: int, extra: nat, comment: Option<Text>)
    requires Ids(ownerId, environmentId)
    ensures var review := Review(ownerId, environmentId, extra, comment);
            && ProperReview(review) && Approves(review, Num(Whole(ownerId)), Num(Whole(environmentId)))
            && (ProperComment(review) <==> (comment.Some? ==> |comment.value| <= MAX_COMMENT))
  {
    hide Get, HasOwn, Review;
    ReviewIsObject(ownerId, environmentId, extra, comment);
    ReviewFields(ownerId, environmentId, extra, comment);
    UserFields(ownerId);
    EnvironmentFields(environmentId);
    assert |NPM| == 3;
    assert ProperEnvironment(Environment(environmentId));
  }

  // ------------------------------------------------------------ inside the bounds

  lemma ReviewWithin(ownerId: int, environmentId: int, extra: nat, comment: Option<Text>)
    requires Ids(ownerId, environmentId) && 4 + extra <= MAX_NAMES + 1
    requires comment.Some? ==> |comment.value| <= MAX_COMMENT && 4 + extra <= MAX_NAMES
    ensures Bounded(Review(ownerId, environmentId, extra, comment), 1)
    ensures Size(Review(ownerId, environmentId, extra, comment)) <= 1 + 5 * (4 + extra)
  {
    hide SizeFields, ExtraKeys;
    UserWithin(ownerId);
    EnvironmentWithin(environmentId);
    ExtraCount(extra);
    var fields := Review(ownerId, environmentId, extra, comment).fields;
    forall i | 0 <= i < |fields| ensures Bounded(fields[i].item, 2) && Size(fields[i].item) <= 5 {
    }
    SizeFieldsAtMost(fields, 5);
  }

  lemma UserWithin(ownerId: int)
    ensures Bounded(User(ownerId), 2) && Size(User(ownerId)) <= 3
  {
    hide SizeFields;
    var fields := User(ownerId).fields;
    forall i | 0 <= i < |fields| ensures Bounded(fields[i].item, 3) && Size(fields[i].item) <= 1 {
    }
    SizeFieldsAtMost(fields, 1);
  }

  lemma EnvironmentWithin(environmentId: int)
    ensures Bounded(Arr([Environment(environmentId)]), 2) && Size(Arr([Environment(environmentId)])) <= 4
  {
    hide SizeFields, SizeItems;
    var fields := Environment(environmentId).fields;
    forall i | 0 <= i < |fields| ensures Bounded(fields[i].item, 4) && Size(fields[i].item) <= 1 {
    }
    SizeFieldsAtMost(fields, 1);
    var items := [Environment(environmentId)];
    assert Bounded(items[0], 3);
    SizeItemsAtMost(items, 3);
  }

  lemma PlainNames()
    ensures GoodKey(USER) && GoodKey(STATE) && GoodKey(ENVIRONMENTS) && GoodKey(COMMENT)
    ensures GoodKey(ID) && GoodKey(TYPE) && GoodKey(NAME)
    ensures Plain(Lit("User")) && Plain(Lit("approved")) && Plain(NPM)
  {
    hide Plain;
    PlainLiteral("user");
    PlainLiteral("state");
    PlainLiteral("environments");
    PlainLiteral("comment");
    PlainLiteral("id");
    PlainLiteral("type");
    PlainLiteral("name");
    PlainLiteral("User");
    PlainLiteral("approved");
    PlainLiteral("npm");
  }

  lemma PlainExtras(extra: nat)
    requires extra <= 100
    ensures forall i :: 0 <= i < extra ==> GoodKey(ExtraKeys(extra)[i])
  {
    hide Decimal;
    forall i | 0 <= i < extra ensures GoodKey(ExtraKeys(extra)[i]) {
      assert Power10(2) == 10 * Power10(1) && Power10(1) == 10 * Power10(0);
      DecimalLength(i, 2);
    }
  }

  lemma UserFits(ownerId: int)
    requires 0 < ownerId <= MAX_SAFE
    ensures Fits(Arrange(User(ownerId)), 0, 2, 500)
  {
    hide Fits, Plain, FieldOrder;
    PlainNames();
    NumberFits(ownerId, 0, 3, 20);
    TextFits(Lit("User"), 0, 3, 20);
    var fields := User(ownerId).fields;
    assert ArrangeItems(fields) == fields;
    ArrangedFits(fields, 0, 2, 20);
    FitsMore(Arrange(Obj(fields)), 0, 2, ObjectRoom(2, 2, 20), 500);
  }

  lemma EnvironmentFits(environmentId: int)
    requires 0 < environmentId <= MAX_SAFE
    ensures Fits(Arrange(Arr([Environment(environmentId)])), 0, 2, 500)
  {
    hide Fits, Plain, FieldOrder;
    PlainNames();
    NumberFits(environmentId, 0, 4, 20);
    TextFits(NPM, 0, 4, 20);
    var fields := Environment(environmentId).fields;
    assert ArrangeItems(fields) == fields;
    ArrangedFits(fields, 0, 3, 20);
    ListFits([Arrange(Obj(fields))], 2, ObjectRoom(2, 3, 20));
    ArrangeOne(Obj(fields));
    FitsMore(Arr([Arrange(Obj(fields))]), 0, 2, ListRoom(1, ObjectRoom(2, 3, 20)), 500);
  }

  lemma ArrangeOne(v: Value)
    ensures Arrange(Arr([v])) == Arr([Arrange(v)])
  {
    assert Arrange(Arr([v])).items == [Arrange(v)];
  }

  lemma NullFits()
    ensures Fits(Null, 0, 2, 500)
  {
    hide Plain;
    PlainLiteral("null");
    PlainIsAscii(Lit("null"));
  }

  lemma PlainIsAscii(t: Text)
    requires Plain(t)
    ensures Ascii(t)
  {
  }

  lemma ReviewFits(ownerId: int, environmentId: int, extra: nat, comment: Option<Text>)
    requires Ids(ownerId, environmentId) && extra <= 100
    requires comment.Some? ==> Plain(comment.value) && |comment.value| <= 400
    ensures Fits(Arrange(Review(ownerId, environmentId, extra, comment)), 0, 1, ObjectRoom(4 + extra, 1, 500))
  {
    hide Fits, Plain, FieldOrder, User, Environment, ExtraKeys, Arrange;
    PlainNames();
    PlainExtras(extra);
    ExtraCount(extra);
    UserFits(ownerId);
    EnvironmentFits(environmentId);
    NullFits();
    TextFits(Lit("approved"), 0, 2, 500);
    ArrangePlain();
    if comment.Some? {
      TextFits(comment.value, 0, 2, 500);
    }
    var keys, items := Keys(extra, comment), Items(ownerId, environmentId, extra, comment);
    var fields := Review(ownerId, environmentId, extra, comment).fields;
    forall i | 0 <= i < |fields| ensures FieldFits(ArrangeItems(fields)[i], 0, 2, 500) {
      assert fields[i].name == keys[i] && fields[i].item == items[i];
      assert 3 <= i < 3 + extra ==> keys[i] == ExtraKeys(extra)[i - 3];
      assert ArrangeItems(fields)[i] == Named(keys[i], Arrange(items[i]));
    }
    ArrangedFits(fields, 0, 1, 500);
    FitsMore(Arrange(Obj(fields)), 0, 1, ObjectRoom(|fields|, 1, 500), ObjectRoom(4 + extra, 1, 500));
  }

  lemma ArrangePlain()
    ensures Arrange(Null) == Null && forall t: Text :: Arrange(Str(t)) == Str(t)
  {
  }

  // --------------------------------------------------------------- the history

  function History(review: Value, count: nat): (reviews: seq<Value>)
    ensures |reviews| == count && forall i :: 0 <= i < count ==> reviews[i] == review
  {
    seq(count, _ => review)
  }

  lemma HistoryWithinBounds(review: Value, count: nat, extra: nat)
    requires Bounded(review, 1) && Size(review) <= 1 + 5 * (4 + extra)
    requires count <= MAX_REVIEWS && extra <= 100 && (count == 1 || extra == 0)
    ensures Within(Arr(History(review, count)))
  {
    hide SizeItems;
    var reviews := History(review, count);
    SizeItemsAtMost(reviews, 1 + 5 * (4 + extra));
    assert |reviews| == 1 || 1 + 5 * (4 + extra) == 21;
  }

  lemma ArrangeHistory(review: Value, count: nat)
    ensures Arrange(Arr(History(review, count))) == Arr(History(Arrange(review), count))
  {
    assert Arrange(Arr(History(review, count))).items == History(Arrange(review), count);
  }

  lemma HistoryFits(review: Value, count: nat, most: nat)
    requires Fits(Arrange(review), 0, 1, most)
    ensures Fits(Arrange(Arr(History(review, count))), 0, 0, ListRoom(count, most))
  {
    hide Fits, Arrange;
    ArrangeHistory(review, count);
    ListFits(History(Arrange(review), count), 0, most);
  }

  /** As long as the reviews fit together, a history of them is approved. */
  lemma HistoryApproved(ownerId: int, environmentId: int, extra: nat, comment: Option<Text>, count: nat)
    requires Ids(ownerId, environmentId) && 1 <= count <= MAX_REVIEWS
    requires if comment.Some? then 4 + extra <= MAX_NAMES else 3 + extra <= MAX_NAMES
    requires comment.Some? ==> Plain(comment.value) && |comment.value| <= 400
    requires count == 1 || extra == 0
    ensures Approved(Arr(History(Review(ownerId, environmentId, extra, comment), count)),
                     Num(Whole(ownerId)), Num(Whole(environmentId)))
  {
    hide Review, Arrange, Stringify, ProperReview, ProperComment, Approves, Within, Encode;
    var review := Review(ownerId, environmentId, extra, comment);
    var reviews := History(review, count);
    ReviewApproves(ownerId, environmentId, extra, comment);
    ReviewWithin(ownerId, environmentId, extra, comment);
    MatchingExactly(reviews, Num(Whole(ownerId)), Num(Whole(environmentId)));
    HistoryWithinBounds(review, count, extra);
    ReviewFits(ownerId, environmentId, extra, comment);
    HistoryFits(review, count, ObjectRoom(4 + extra, 1, 500));
    AsciiBytes(Stringify(Arrange(Arr(reviews)), 0, 0));
    assert Approves(reviews[0], Num(Whole(ownerId)), Num(Whole(environmentId)));
  }

  lemma {:induction false} PositionAppend(fields: seq<Named<Value>>, x: Named<Value>, name: Text)
    requires name != x.name
    ensures Position(fields + [x], name) ==
            if Position(fields, name) < |fields| then Position(fields, name) else |fields| + 1
  {
    if fields == [] {
      assert fields + [x] == [x] && [x][1..] == [];
      assert Position([x][1..], name) == 0;
    } else {
      assert (fields + [x])[1..] == fields[1..] + [x];
      PositionAppend(fields[1..], x, name);
    }
  }

  lemma GetAppend(fields: seq<Named<Value>>, x: Named<Value>, name: Text)
    requires name != x.name
    ensures Get(Obj(fields + [x]), name) == Get(Obj(fields), name)
  {
    hide Position;
    PositionAppend(fields, x, name);
  }

  lemma CommentComesLast(ownerId: int, environmentId: int, extra: nat, comment: Text)
    ensures Review(ownerId, environmentId, extra, Some(comment)).fields ==
            Review(ownerId, environmentId, extra, None).fields + [Named(COMMENT, Str(comment))]
  {
    hide ExtraKeys, User, Environment;
    ExtraCount(extra);
  }

  lemma CommentAside(ownerId: int, environmentId: int, extra: nat, comment: Option<Text>, name: Text)
    requires name != COMMENT
    ensures Get(Review(ownerId, environmentId, extra, comment), name) ==
            Get(Review(ownerId, environmentId, extra, None), name)
  {
    hide Get, Review;
    if comment.Some? {
      CommentComesLast(ownerId, environmentId, extra, comment.value);
      ReviewIsObject(ownerId, environmentId, extra, comment);
      ReviewIsObject(ownerId, environmentId, extra, None);
      var bare := Review(ownerId, environmentId, extra, None);
      GetAppend(bare.fields, Named(COMMENT, Str(comment.value)), name);
    }
  }

  /** Reviews that are alike but for the comment differ in nothing else. */
  lemma OnlyComment(ownerId: int, environmentId: int, extra: nat, a: Option<Text>, b: Option<Text>)
    ensures OnlyCommentDiffers(Review(ownerId, environmentId, extra, a), Review(ownerId, environmentId, extra, b))
  {
    hide Get, Review;
    ReviewIsObject(ownerId, environmentId, extra, a);
    ReviewIsObject(ownerId, environmentId, extra, b);
    var x, y := Review(ownerId, environmentId, extra, a), Review(ownerId, environmentId, extra, b);
    forall name | name != COMMENT ensures Get(x, name) == Get(y, name) {
      CommentAside(ownerId, environmentId, extra, a, name);
      CommentAside(ownerId, environmentId, extra, b, name);
    }
  }

  lemma ReviewIsObject(ownerId: int, environmentId: int, extra: nat, comment: Option<Text>)
    ensures var review := Review(ownerId, environmentId, extra, comment); review.Obj? && review == Obj(review.fields)
  {
  }

  lemma SameNames(ownerId: int, environmentId: int, extra: nat, a: Text, b: Text)
    ensures Names(Review(ownerId, environmentId, extra, Some(a)).fields) ==
            Names(Review(ownerId, environmentId, extra, Some(b)).fields)
  {
    hide Keys;
    var x, y := Review(ownerId, environmentId, extra, Some(a)).fields,
        Review(ownerId, environmentId, extra, Some(b)).fields;
    KeysCount(extra, a, b);
    assert |x| == |y| && forall i :: 0 <= i < |x| ==> x[i].name == y[i].name;
  }

  lemma KeysCount(extra: nat, a: Text, b: Text)
    ensures Keys(extra, Some(a)) == Keys(extra, Some(b))
  {
  }

  /** Main result: with the longest comments a history of 65 to 100 reviews is refused that with empty comments is
      approved, although every comment is of proper form. */
  lemma LongCommentsExample(ownerId: int, environmentId: int, count: nat)
    requires Ids(ownerId, environmentId) && 65 <= count <= MAX_REVIEWS
    ensures var short := History(Review(ownerId, environmentId, 0, Some([])), count);
            var long := History(Review(ownerId, environmentId, 0, Some(seq(MAX_COMMENT, _ => LOWER_A))), count);
            && OnlyTextsDiffer(short, long)
            && (forall i :: 0 <= i < count ==> ProperComment(long[i]) && Distinct(short[i]) && Distinct(long[i]))
            && Approved(Arr(short), Num(Whole(ownerId)), Num(Whole(environmentId)))
            && !Approved(Arr(long), Num(Whole(ownerId)), Num(Whole(environmentId)))
  {
    hide Review, Approved, ProperComment, ProperReview, Approves, OnlyCommentDiffers, CanonicalText, Get, HasOwn,
         Distinct;
    var text: Text := seq(MAX_COMMENT, _ => LOWER_A);
    var short, long := History(Review(ownerId, environmentId, 0, Some([])), count),
                       History(Review(ownerId, environmentId, 0, Some(text)), count);
    HistoryApproved(ownerId, environmentId, 0, Some([]), count);
    ReviewApproves(ownerId, environmentId, 0, Some(text));
    ReviewDistinct(ownerId, environmentId, 0, Some([]));
    ReviewDistinct(ownerId, environmentId, 0, Some(text));
    ReviewFields(ownerId, environmentId, 0, Some(text));
    OnlyComment(ownerId, environmentId, 0, Some([]), Some(text));
    SameNames(ownerId, environmentId, 0, [], text);
    CommentsCanMatter(short, long, Num(Whole(ownerId)), Num(Whole(environmentId)));
  }

  /** Main result: a review of 100 names is approved without a comment and refused with one, however short. */
  lemma AddedCommentExample(ownerId: int, environmentId: int, comment: Text)
    requires Ids(ownerId, environmentId) && |comment| <= MAX_COMMENT
    ensures var without, with := History(Review(ownerId, environmentId, 97, None), 1),
                                 History(Review(ownerId, environmentId, 97, Some(comment)), 1);
            && OnlyCommentsDiffer(without, with) && ProperComment(with[0])
            && Approved(Arr(without), Num(Whole(ownerId)), Num(Whole(environmentId)))
            && !Approved(Arr(with), Num(Whole(ownerId)), Num(Whole(environmentId)))
  {
    hide Review, Approved, ProperComment, ProperReview, Approves, OnlyCommentDiffers, Get, HasOwn, Distinct;
    var without, with := History(Review(ownerId, environmentId, 97, None), 1),
                         History(Review(ownerId, environmentId, 97, Some(comment)), 1);
    HistoryApproved(ownerId, environmentId, 97, None, 1);
    ReviewApproves(ownerId, environmentId, 97, Some(comment));
    ReviewDistinct(ownerId, environmentId, 97, None);
    ReviewDistinct(ownerId, environmentId, 97, Some(comment));
    ReviewFields(ownerId, environmentId, 97, None);
    ReviewFields(ownerId, environmentId, 97, Some(comment));
    OnlyComment(ownerId, environmentId, 97, None, Some(comment));
    AddedCommentCanMatter(without, with, 0, Num(Whole(ownerId)), Num(Whole(environmentId)));
  }
}
