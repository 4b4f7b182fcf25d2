/** The canonical form behind every digest: bounded JSON whose object names are put in one fixed order. */
module Canonical {
  import opened Strings
  import opened Ordering
  import opened Utf8
  import opened Json
  import opened JsonReader

  const MAX_NODES := 20_000
  const MAX_DEPTH := 20
  const MAX_STRING := 65_536
  const MAX_ITEMS := 1000
  const MAX_NAMES := 100
  const MAX_BYTES := 262_144

  // ----------------------------------------------------------- name order

  predicate NameBefore<T>(a: Named<T>, b: Named<T>) {
    LexLess(a.name, b.name)
  }

  /** `Object.keys(source).sort()`, each name with its item. */
  function SortByName<T>(fields: seq<Named<T>>): seq<Named<T>> {
    Sort(fields, NameBefore)
  }

  /** A name the engine treats as an array index and therefore lists first. */
  predicate IsIndexName(name: Text) {
    IsNumeral(name) && ReadDecimal(name) < 0xFFFF_FFFF
  }

  predicate IndexBefore<T>(a: Named<T>, b: Named<T>) {
    IsIndexName(a.name) && IsIndexName(b.name) && ReadDecimal(a.name) < ReadDecimal(b.name)
  }

  function WithIndexName<T>(fields: seq<Named<T>>, wanted: bool): seq<Named<T>> {
    if fields == [] then []
    else (if IsIndexName(fields[0].name) == wanted then [fields[0]] else []) + WithIndexName(fields[1..], wanted)
  }

  /** The order in which an object lists names that were added as in `fields`:
      index names by value, then the others as added. */
  function ListingOrder<T>(fields: seq<Named<T>>): seq<Named<T>> {
    Sort(WithIndexName(fields, true), IndexBefore) + WithIndexName(fields, false)
  }

  /** The canonical order of one object's fields. */
  function FieldOrder<T>(fields: seq<Named<T>>): seq<Named<T>> {
    ListingOrder(SortByName(fields))
  }

  /** The value `visit` builds: the same items with names in canonical order at every depth. */
  function Arrange(v: Value): Value {
    match v
    case Arr(items) => Arr(seq(|items|, i requires 0 <= i < |items| => Arrange(items[i])))
    case Obj(fields) => Obj(FieldOrder(ArrangeItems(fields)))
    case _ => v
  }

  function ArrangeItems(fields: seq<Named<Value>>): (r: seq<Named<Value>>)
    ensures |r| == |fields|
  {
    seq(|fields|, i requires 0 <= i < |fields| => Named(fields[i].name, Arrange(fields[i].item)))
  }

  // -------------------------------------------------------------- measure

  /** How many values `visit` is called on. */
  function Size(v: Value): (n: nat)
    ensures n >= 1
  {
    match v
    case Arr(items) => 1 + SizeItems(items)
    case Obj(fields) => 1 + SizeFields(fields)
    case _ => 1
  }

  function SizeItems(items: seq<Value>): nat {
    if items == [] then 0 else Size(items[0]) + SizeItems(items[1..])
  }

  function SizeFields(fields: seq<Named<Value>>): nat {
    if fields == [] then 0 else Size(fields[0].item) + SizeFields(fields[1..])
  }

  /** Depth, string, array and object bounds, and nothing but JSON, for a value at `depth`. */
  predicate Bounded(v: Value, depth: nat) {
    && depth <= MAX_DEPTH
    && match v
       case Str(s) => |s| <= MAX_STRING
       case Num(n) => !n.NotFinite?
       case Arr(items) => |items| <= MAX_ITEMS && forall i :: 0 <= i < |items| ==> Bounded(items[i], depth + 1)
       case Obj(fields) =>
         |fields| <= MAX_NAMES && forall i :: 0 <= i < |fields| ==> Bounded(fields[i].item, depth + 1)
       case Foreign => false
       case _ => true
  }

  predicate Within(v: Value) {
    Bounded(v, 0) && Size(v) <= MAX_NODES
  }

  /** The canonical text, or none where the script refuses. */
  function CanonicalText(v: Value): Option<Text> {
    if !Within(v) then None
    else
      var json := Stringify(Arrange(v), 0, 0);
      if |Encode(json)| <= MAX_BYTES then Some(json) else None
  }

  // ------------------------------------------------------ the field order

  lemma NameOrderStrict<T(!new)>()
    ensures StrictOrder<Named<T>>(NameBefore)
  {
    forall a: Named<T> ensures !NameBefore(a, a) {
      LexIrreflexive(a.name);
    }
    forall a: Named<T>, b: Named<T>, c: Named<T> | NameBefore(a, b) && NameBefore(b, c) ensures NameBefore(a, c) {
      LexTransitive(a.name, b.name, c.name);
    }
  }

  lemma DistinctComparable<T>(fields: seq<Named<T>>)
    requires DistinctNames(fields)
    ensures Comparable(fields, NameBefore)
  {
    forall i, j | 0 <= i < j < |fields|
      ensures NameBefore(fields[i], fields[j]) || NameBefore(fields[j], fields[i])
    {
      LexTotal(fields[i].name, fields[j].name);
    }
  }

  lemma {:induction false} WithIndexNameElements<T(!new)>(fields: seq<Named<T>>, wanted: bool)
    ensures forall x :: x in WithIndexName(fields, wanted) <==> x in fields && IsIndexName(x.name) == wanted
  {
    if fields != [] {
      WithIndexNameElements(fields[1..], wanted);
      assert fields == [fields[0]] + fields[1..];
    }
  }

  lemma {:induction false} WithIndexNameSplits<T(!new)>(fields: seq<Named<T>>)
    ensures multiset(WithIndexName(fields, true)) + multiset(WithIndexName(fields, false)) == multiset(fields)
  {
    if fields != [] {
      WithIndexNameSplits(fields[1..]);
      assert fields == [fields[0]] + fields[1..];
    }
  }

  /** Reordering loses and invents nothing. */
  lemma FieldOrderPermutes<T(!new)>(fields: seq<Named<T>>)
    ensures multiset(FieldOrder(fields)) == multiset(fields)
    ensures |FieldOrder(fields)| == |fields|
    ensures SameElements(FieldOrder(fields), fields)
  {
    var sorted := SortByName(fields);
    WithIndexNameSplits(sorted);
    var r := FieldOrder(fields);
    assert |r| == |multiset(r)| && |fields| == |multiset(fields)|;
    forall x ensures x in r <==> x in fields {
      assert x in r <==> x in multiset(r);
      assert x in fields <==> x in multiset(fields);
    }
  }

  /** The order depends only on the set of fields. */
  lemma FieldOrderCanonical<T(!new)>(a: seq<Named<T>>, b: seq<Named<T>>)
    requires DistinctNames(a) && DistinctNames(b) && SameElements(a, b)
    ensures FieldOrder(a) == FieldOrder(b)
  {
    NameOrderStrict<T>();
    DistinctComparable(a);
    DistinctComparable(b);
    SortCanonical(a, b, NameBefore);
  }

  /** The one order in which any object lists its names: index names by value, then the rest unit by unit. */
  predicate ListedBefore(a: Text, b: Text) {
    if IsIndexName(a) then !IsIndexName(b) || ReadDecimal(a) < ReadDecimal(b)
    else !IsIndexName(b) && LexLess(a, b)
  }

  lemma {:induction false} FilterAscending<T(!new)>(fields: seq<Named<T>>, wanted: bool)
    requires Ascending(fields, NameBefore)
    ensures Ascending(WithIndexName(fields, wanted), NameBefore)
  {
    if fields != [] {
      FilterAscending(fields[1..], wanted);
      WithIndexNameElements(fields[1..], wanted);
      var rest := WithIndexName(fields[1..], wanted);
      forall j | 0 <= j < |rest| ensures NameBefore(fields[0], rest[j]) {
        assert rest[j] in rest;
        var k :| 0 <= k < |fields[1..]| && fields[1..][k] == rest[j];
        assert fields[k + 1] == rest[j];
      }
    }
  }

  lemma IndexOrderStrict<T(!new)>()
    ensures StrictOrder<Named<T>>(IndexBefore)
  {
  }

  /** Two different index names have different values. */
  lemma IndexNamesComparable<T(!new)>(fields: seq<Named<T>>)
    requires Ascending(fields, NameBefore)
    requires forall i :: 0 <= i < |fields| ==> IsIndexName(fields[i].name)
    ensures Comparable(fields, IndexBefore)
  {
    forall i, j | 0 <= i < j < |fields|
      ensures IndexBefore(fields[i], fields[j]) || IndexBefore(fields[j], fields[i])
    {
      assert NameBefore(fields[i], fields[j]);
      LexIrreflexive(fields[i].name);
      DecimalOfReadDecimal(fields[i].name);
      DecimalOfReadDecimal(fields[j].name);
    }
  }

  /** Canonical order is `ListedBefore`, whatever order the names came in. */
  lemma FieldOrderListed<T(!new)>(fields: seq<Named<T>>)
    requires DistinctNames(fields)
    ensures var r := FieldOrder(fields); forall i, j :: 0 <= i < j < |r| ==> ListedBefore(r[i].name, r[j].name)
  {
    hide ReadDecimal, IsNumeral, LexLess;
    var sorted := SortByName(fields);
    NameOrderStrict<T>();
    DistinctComparable(fields);
    SortAscending(fields, NameBefore);
    var indexed, others := WithIndexName(sorted, true), WithIndexName(sorted, false);
    FilterAscending(sorted, true);
    FilterAscending(sorted, false);
    WithIndexNameElements(sorted, true);
    WithIndexNameElements(sorted, false);
    assert forall i :: 0 <= i < |indexed| ==> indexed[i] in indexed;
    IndexNamesComparable(indexed);
    IndexOrderStrict<T>();
    var first := Sort(indexed, IndexBefore);
    SortAscending(indexed, IndexBefore);
    SortElements(indexed, IndexBefore);
    var r := first + others;
    forall i, j | 0 <= i < j < |r| ensures ListedBefore(r[i].name, r[j].name) {
      if j < |first| {
        assert IndexBefore(first[i], first[j]);
      } else {
        assert others[j - |first|] in others;
        if i < |first| {
          assert first[i] in first;
        } else {
          assert others[i - |first|] in others;
          assert NameBefore(others[i - |first|], others[j - |first|]);
        }
      }
    }
  }

  /** The index names are the numerals of the numbers below 2^32 - 1. */
  lemma IndexNames(name: Text)
    ensures IsIndexName(name) <==> exists n: nat :: n < 4294967295 && name == Decimal(n)
  {
    hide Decimal, ReadDecimal;
    if IsIndexName(name) {
      DecimalOfReadDecimal(name);
      assert name == Decimal(ReadDecimal(name));
    }
    if n: nat :| n < 4294967295 && name == Decimal(n) {
      ReadDecimalOfDecimal(n);
    }
  }

  // ------------------------------------------------- when that is alphabetical

  ghost predicate Alphabetical<T>(fields: seq<Named<T>>) {
    forall i, j :: 0 <= i < j < |fields| ==> LexLess(fields[i].name, fields[j].name)
  }

  /** An index name that is listed before the other name. */
  predicate IndexListedBefore(a: Text, b: Text) {
    IsIndexName(a) && (IsIndexName(b) ==> ReadDecimal(a) < ReadDecimal(b))
  }

  /** Every index name is alphabetically before the index names of larger value, and before every other name. */
  ghost predicate IndexNamesInPlace<T>(fields: seq<Named<T>>) {
    forall i, j :: 0 <= i < |fields| && 0 <= j < |fields| && IndexListedBefore(fields[i].name, fields[j].name) ==>
      LexLess(fields[i].name, fields[j].name)
  }

  lemma InPlaceElements<T(!new)>(a: seq<Named<T>>, b: seq<Named<T>>)
    requires SameElements(a, b) && IndexNamesInPlace(a)
    ensures IndexNamesInPlace(b)
  {
    hide IndexListedBefore, LexLess;
    forall i, j | 0 <= i < |b| && 0 <= j < |b| && IndexListedBefore(b[i].name, b[j].name)
      ensures LexLess(b[i].name, b[j].name)
    {
      assert b[i] in a && b[j] in a;
    }
  }

  /** Names listed one before the other are listed so for their index value, or alphabetically. */
  lemma ListedCases(a: Text, b: Text)
    ensures ListedBefore(a, b) ==> IndexListedBefore(a, b) || LexLess(a, b)
    ensures IndexListedBefore(a, b) ==> a != b && !ListedBefore(b, a)
  {
    hide IsNumeral, ReadDecimal, LexLess;
  }

  /** Main result: the canonical order of an object's names is the alphabetical order exactly when its index names
      stand where the alphabet puts them. */
  lemma AlphabeticalExactly<T(!new)>(fields: seq<Named<T>>)
    requires DistinctNames(fields)
    ensures Alphabetical(FieldOrder(fields)) <==> IndexNamesInPlace(fields)
  {
    hide FieldOrder, LexLess, ListedBefore, IndexListedBefore;
    var r := FieldOrder(fields);
    FieldOrderListed(fields);
    FieldOrderPermutes(fields);
    forall a, b ensures ListedBefore(a, b) ==> IndexListedBefore(a, b) || LexLess(a, b)
      ensures IndexListedBefore(a, b) ==> a != b && !ListedBefore(b, a)
    {
      ListedCases(a, b);
    }
    if IndexNamesInPlace(fields) {
      InPlaceElements(fields, r);
      assert forall i, j :: 0 <= i < j < |r| ==> ListedBefore(r[i].name, r[j].name);
    }
    if Alphabetical(r) {
      forall i, j | 0 <= i < |r| && 0 <= j < |r| && IndexListedBefore(r[i].name, r[j].name)
        ensures LexLess(r[i].name, r[j].name)
      {
        assert i != j;
      }
      InPlaceElements(r, fields);
    }
  }

  /** It is not always so: an object lists `1` before `!`. */
  lemma NotAlphabetical<T(!new)>(a: T, b: T)
    ensures var fields := [Named([33], a), Named([ZERO + 1], b)];
            FieldOrder(fields) == [fields[1], fields[0]] && !Alphabetical(FieldOrder(fields))
  {
    hide IsIndexName, LexLess;
    var first, second := Named([33], a), Named([ZERO + 1], b);
    var fields := [first, second];
    ExampleNames();
    assert fields[1..] == [second] && [second][1..] == [];
    assert SortByName(fields[1..]) == [second];
    assert SortByName(fields) == fields;
    assert WithIndexName([second], true) == [second] && WithIndexName([second], false) == [];
    assert WithIndexName(fields, true) == [second] && WithIndexName(fields, false) == [first];
    assert Sort([second], IndexBefore) == [second];
    assert ListingOrder(fields) == [second, first];
    var r := FieldOrder(fields);
    assert r == [second, first] && !LexLess(r[0].name, r[1].name);
  }

  lemma ExampleNames()
    ensures IsIndexName([ZERO + 1]) && !IsIndexName([33])
    ensures LexLess([33], [ZERO + 1]) && !LexLess([ZERO + 1], [33])
  {
  }

  // ------------------------------------------------- what arranging keeps

  /** Names occur once in any rearrangement of fields whose names are distinct. */
  lemma RearrangedDistinct<T(!new)>(fields: seq<Named<T>>, other: seq<Named<T>>)
    requires DistinctNames(fields) && multiset(other) == multiset(fields)
    ensures DistinctNames(other)
  {
    forall i, j | 0 <= i < j < |other| ensures other[i].name != other[j].name {
      var x, y := other[i], other[j];
      assert x in multiset(other) && y in multiset(other);
      var p :| 0 <= p < |fields| && fields[p] == x;
      var q :| 0 <= q < |fields| && fields[q] == y;
      if x.name == y.name {
        assert p == q;
        TwiceInMultiset(other, i, j);
        OnceInMultiset(fields, p);
        assert false;
      }
    }
  }

  lemma TwiceInMultiset<T>(s: seq<T>, i: nat, j: nat)
    requires i < j < |s| && s[i] == s[j]
    ensures multiset(s)[s[i]] >= 2
  {
    assert s == s[..i] + [s[i]] + s[i + 1..j] + [s[j]] + s[j + 1..];
  }

  lemma OnceInMultiset<T>(s: seq<Named<T>>, p: nat)
    requires p < |s| && DistinctNames(s)
    ensures multiset(s)[s[p]] == 1
  {
    assert s == s[..p] + [s[p]] + s[p + 1..];
    assert s[p] !in s[..p] && s[p] !in s[p + 1..];
  }

  lemma {:induction false} ArrangeDistinct(v: Value)
    requires Distinct(v)
    ensures Distinct(Arrange(v))
  {
    match v
    case Arr(items) =>
      forall i | 0 <= i < |items| ensures Distinct(Arrange(items[i])) {
        ArrangeDistinct(items[i]);
      }
    case Obj(fields) =>
      var arranged := ArrangeItems(fields);
      FieldOrderPermutes(arranged);
      RearrangedDistinct(arranged, FieldOrder(arranged));
      forall i | 0 <= i < |arranged| ensures Distinct(arranged[i].item) {
        ArrangeDistinct(fields[i].item);
      }
      forall i | 0 <= i < |fields| ensures Distinct(FieldOrder(arranged)[i].item) {
        assert FieldOrder(arranged)[i] in arranged;
      }
    case _ =>
  }

  lemma {:induction false} BoundedPure(v: Value, depth: nat)
    requires Bounded(v, depth)
    ensures Pure(v)
  {
    match v
    case Arr(items) =>
      forall i | 0 <= i < |items| ensures Pure(items[i]) {
        BoundedPure(items[i], depth + 1);
      }
    case Obj(fields) =>
      forall i | 0 <= i < |fields| ensures Pure(fields[i].item) {
        BoundedPure(fields[i].item, depth + 1);
      }
    case _ =>
  }

  lemma BoundedElements(a: seq<Named<Value>>, b: seq<Named<Value>>, depth: nat)
    requires SameElements(a, b)
    requires forall i :: 0 <= i < |a| ==> Bounded(a[i].item, depth)
    ensures forall i :: 0 <= i < |b| ==> Bounded(b[i].item, depth)
  {
    hide Bounded;
    forall i | 0 <= i < |b| ensures Bounded(b[i].item, depth) {
      assert b[i] in a;
    }
  }

  lemma {:induction false} ArrangeBounded(v: Value, depth: nat)
    ensures Bounded(v, depth) <==> Bounded(Arrange(v), depth)
  {
    match v
    case Arr(items) =>
      hide FieldOrder;
      forall i | 0 <= i < |items| ensures Bounded(items[i], depth + 1) <==> Bounded(Arrange(v).items[i], depth + 1) {
        ArrangeBounded(items[i], depth + 1);
      }
    case Obj(fields) =>
      forall i | 0 <= i < |fields|
        ensures Bounded(fields[i].item, depth + 1) <==> Bounded(Arrange(fields[i].item), depth + 1)
      {
        ArrangeBounded(fields[i].item, depth + 1);
      }
      ArrangeBoundedFields(fields, depth);
    case _ =>
  }

  lemma ArrangeBoundedFields(fields: seq<Named<Value>>, depth: nat)
    requires forall i :: 0 <= i < |fields| ==>
               (Bounded(fields[i].item, depth + 1) <==> Bounded(Arrange(fields[i].item), depth + 1))
    ensures Bounded(Obj(fields), depth) <==> Bounded(Arrange(Obj(fields)), depth)
  {
    hide FieldOrder;
    var arranged := ArrangeItems(fields);
    var ordered := FieldOrder(arranged);
    assert Arrange(Obj(fields)) == Obj(ordered);
    hide Arrange;
    FieldOrderPermutes(arranged);
    if Bounded(Obj(fields), depth) {
      BoundedElements(arranged, ordered, depth + 1);
    }
    if Bounded(Obj(ordered), depth) {
      BoundedElements(ordered, arranged, depth + 1);
      forall i | 0 <= i < |fields| ensures Bounded(fields[i].item, depth + 1) {
        assert Bounded(arranged[i].item, depth + 1);
      }
      assert Bounded(Obj(fields), depth);
    }
  }

  lemma {:induction false} SizeAppend(a: seq<Named<Value>>, b: seq<Named<Value>>)
    ensures SizeFields(a + b) == SizeFields(a) + SizeFields(b)
  {
    if a == [] {
      assert a + b == b;
    } else {
      SizeAppend(a[1..], b);
      assert (a + b)[1..] == a[1..] + b;
    }
  }

  /** The total size does not depend on the order. */
  lemma {:induction false} SizePermutes(a: seq<Named<Value>>, b: seq<Named<Value>>)
    requires multiset(a) == multiset(b)
    ensures SizeFields(a) == SizeFields(b)
  {
    if a == [] {
      assert |multiset(b)| == 0;
      assert b == [];
    } else {
      var j := TakeOut(a, b);
      SizePermutes(a[1..], b[..j] + b[j + 1..]);
      SizeAppend(b[..j], b[j + 1..]);
      SizeAppend(b[..j], [b[j]] + b[j + 1..]);
      assert b == b[..j] + ([b[j]] + b[j + 1..]);
      assert ([b[j]] + b[j + 1..])[1..] == b[j + 1..];
    }
  }

  lemma {:induction false} ArrangeSize(v: Value)
    ensures Size(Arrange(v)) == Size(v)
    decreases v, 1
  {
    hide FieldOrder, SizeFields, SizeItems;
    match v
    case Arr(items) => ArrangeSizeItems(items);
    case Obj(fields) =>
      ArrangeSizeFields(fields);
      FieldOrderPermutes(ArrangeItems(fields));
      SizePermutes(FieldOrder(ArrangeItems(fields)), ArrangeItems(fields));
    case _ =>
  }

  lemma {:induction false} ArrangeSizeItems(items: seq<Value>)
    ensures SizeItems(Arrange(Arr(items)).items) == SizeItems(items)
    decreases items, 0
  {
    if items != [] {
      ArrangeSize(items[0]);
      ArrangeSizeItems(items[1..]);
      assert Arrange(Arr(items)).items[1..] == Arrange(Arr(items[1..])).items;
    }
  }

  lemma {:induction false} ArrangeSizeFields(fields: seq<Named<Value>>)
    ensures SizeFields(ArrangeItems(fields)) == SizeFields(fields)
    decreases fields, 0
  {
    if fields != [] {
      ArrangeSize(fields[0].item);
      ArrangeSizeFields(fields[1..]);
      assert ArrangeItems(fields)[1..] == ArrangeItems(fields[1..]);
    }
  }

  // ------------------------------------------- faithful up to name order

  /** Arranging identifies exactly the values that differ in name order only. */
  lemma {:induction false} ArrangeFaithful(a: Value, b: Value)
    requires Distinct(a) && Distinct(b)
    ensures Arrange(a) == Arrange(b) <==> Same(a, b)
  {
    match a
    case Arr(xs) =>
      if b.Arr? && |xs| == |b.items| {
        forall i | 0 <= i < |xs| ensures Arrange(xs[i]) == Arrange(b.items[i]) <==> Same(xs[i], b.items[i]) {
          ArrangeFaithful(xs[i], b.items[i]);
        }
        if Arrange(a) == Arrange(b) {
          forall i | 0 <= i < |xs| ensures Arrange(xs[i]) == Arrange(b.items[i]) {
            assert Arrange(a).items[i] == Arrange(b).items[i];
          }
        }
        if Same(a, b) {
          assert Arrange(a).items == Arrange(b).items;
        }
      }
    case Obj(fs) =>
      if b.Obj? {
        forall i, j | 0 <= i < |fs| && 0 <= j < |b.fields|
          ensures Arrange(fs[i].item) == Arrange(b.fields[j].item) <==> Same(fs[i].item, b.fields[j].item)
        {
          ArrangeFaithful(fs[i].item, b.fields[j].item);
        }
        if Arrange(a) == Arrange(b) {
          ArrangedFieldsSame(fs, b.fields);
        }
        if Same(a, b) {
          SameFieldsArranged(fs, b.fields);
        }
      }
    case _ =>
  }

  lemma SameArrangement(a: seq<Named<Value>>, b: seq<Named<Value>>)
    requires FieldOrder(a) == FieldOrder(b)
    ensures SameElements(a, b)
  {
    hide FieldOrder;
    FieldOrderPermutes(a);
    FieldOrderPermutes(b);
  }

  lemma ArrangedFieldsSame(fs: seq<Named<Value>>, gs: seq<Named<Value>>)
    requires DistinctNames(fs) && DistinctNames(gs)
    requires FieldOrder(ArrangeItems(fs)) == FieldOrder(ArrangeItems(gs))
    requires forall i, j :: 0 <= i < |fs| && 0 <= j < |gs| && Arrange(fs[i].item) == Arrange(gs[j].item) ==>
               Same(fs[i].item, gs[j].item)
    ensures Same(Obj(fs), Obj(gs))
  {
    hide FieldOrder, Arrange, Position;
    var af, ag := ArrangeItems(fs), ArrangeItems(gs);
    SameArrangement(af, ag);
    forall i | 0 <= i < |fs| ensures fs[i].name in Names(gs) && Same(fs[i].item, Get(Obj(gs), fs[i].name)) {
      assert af[i] in ag;
      var j :| 0 <= j < |ag| && ag[j] == af[i];
      assert gs[j].name == fs[i].name;
      PositionUnique(gs, j);
    }
    forall j | 0 <= j < |gs| ensures gs[j].name in Names(fs) {
      assert ag[j] in af;
      var i :| 0 <= i < |af| && af[i] == ag[j];
      assert fs[i].name == gs[j].name;
    }
    assert Names(fs) == Names(gs);
  }

  lemma SameFieldsArranged(fs: seq<Named<Value>>, gs: seq<Named<Value>>)
    requires DistinctNames(fs) && DistinctNames(gs)
    requires Same(Obj(fs), Obj(gs))
    requires forall i, j :: 0 <= i < |fs| && 0 <= j < |gs| && Same(fs[i].item, gs[j].item) ==>
               Arrange(fs[i].item) == Arrange(gs[j].item)
    ensures Arrange(Obj(fs)) == Arrange(Obj(gs))
  {
    var af, ag := ArrangeItems(fs), ArrangeItems(gs);
    forall i | 0 <= i < |fs| ensures af[i] in ag {
      assert fs[i].name in Names(gs);
      var j := Position(gs, fs[i].name);
      assert ag[j] == af[i];
    }
    forall j | 0 <= j < |gs| ensures ag[j] in af {
      assert gs[j].name in Names(fs);
      var i := Position(fs, gs[j].name);
      assert Same(fs[i].item, Get(Obj(gs), fs[i].name));
      PositionUnique(gs, j);
      assert af[i] == ag[j];
    }
    FieldOrderCanonical(af, ag);
  }

  lemma SameReflexive(v: Value)
    requires Distinct(v)
    ensures Same(v, v)
  {
    ArrangeFaithful(v, v);
  }

  lemma SameSymmetric(a: Value, b: Value)
    requires Distinct(a) && Distinct(b) && Same(a, b)
    ensures Same(b, a)
  {
    ArrangeFaithful(a, b);
    ArrangeFaithful(b, a);
  }

  lemma SameThrough(a: Value, b: Value, c: Value)
    requires Distinct(a) && Distinct(b) && Distinct(c) && Same(a, b) && Same(b, c)
    ensures Same(a, c)
  {
    hide Same, Distinct;
    ArrangeFaithful(a, b);
    ArrangeFaithful(b, c);
    ArrangeFaithful(a, c);
  }

  /** Equal up to name order is as good as equal for every bound. */
  lemma SameAccepted(a: Value, b: Value)
    requires Distinct(a) && Distinct(b) && Same(a, b)
    ensures CanonicalText(a) == CanonicalText(b)
  {
    ArrangeFaithful(a, b);
    ArrangeBounded(a, 0);
    ArrangeBounded(b, 0);
    ArrangeSize(a);
    ArrangeSize(b);
  }

  /** Reading a canonical text gives the arranged value back. */
  lemma CanonicalReads(v: Value)
    requires Distinct(v) && CanonicalText(v).Some?
    ensures Parse(CanonicalText(v).value) == Some(Arrange(v))
  {
    ArrangeBounded(v, 0);
    BoundedPure(Arrange(v), 0);
    ArrangeDistinct(v);
    ParseStringify(Arrange(v), 0, []);
    assert Stringify(Arrange(v), 0, 0) + [] == Stringify(Arrange(v), 0, 0);
  }

  /** Main result: two accepted values have the same canonical text exactly when they are equal up to name order. */
  lemma CanonicalFaithful(a: Value, b: Value)
    requires Distinct(a) && Distinct(b)
    requires CanonicalText(a).Some? && CanonicalText(b).Some?
    ensures CanonicalText(a) == CanonicalText(b) <==> Same(a, b)
  {
    if CanonicalText(a) == CanonicalText(b) {
      CanonicalReads(a);
      CanonicalReads(b);
    }
    ArrangeFaithful(a, b);
  }

  /** Canonicalising is idempotent: the text read back has the same canonical text. */
  lemma CanonicalIdempotent(v: Value)
    requires Distinct(v) && CanonicalText(v).Some?
    ensures var w := Parse(CanonicalText(v).value);
            w.Some? && Same(v, w.value) && CanonicalText(w.value) == CanonicalText(v)
  {
    CanonicalReads(v);
    ArrangeDistinct(v);
    ArrangeTwice(v);
    ArrangeFaithful(v, Arrange(v));
    SameAccepted(v, Arrange(v));
  }

  lemma {:induction false} ArrangeTwice(v: Value)
    requires Distinct(v)
    ensures Arrange(Arrange(v)) == Arrange(v)
  {
    match v
    case Arr(items) =>
      forall i | 0 <= i < |items| ensures Arrange(Arrange(items[i])) == Arrange(items[i]) {
        ArrangeTwice(items[i]);
      }
      assert Arrange(Arrange(v)).items == Arrange(v).items;
    case Obj(fields) =>
      forall i | 0 <= i < |fields| ensures Arrange(Arrange(fields[i].item)) == Arrange(fields[i].item) {
        ArrangeTwice(fields[i].item);
      }
      ArrangeTwiceFields(fields);
    case _ =>
  }

  lemma ArrangeTwiceFields(fields: seq<Named<Value>>)
    requires DistinctNames(fields)
    requires forall i :: 0 <= i < |fields| ==> Arrange(Arrange(fields[i].item)) == Arrange(fields[i].item)
    ensures Arrange(Arrange(Obj(fields))) == Arrange(Obj(fields))
  {
    hide FieldOrder;
    var arranged := ArrangeItems(fields);
    var ordered := FieldOrder(arranged);
    assert Arrange(Obj(fields)) == Obj(ordered);
    FieldOrderPermutes(arranged);
    RearrangedDistinct(arranged, ordered);
    assert Arrange(Obj(ordered)) == Obj(FieldOrder(ArrangeItems(ordered)));
    hide Arrange;
    forall i | 0 <= i < |ordered| ensures Arrange(ordered[i].item) == ordered[i].item {
      assert ordered[i] in arranged;
    }
    assert ArrangeItems(ordered) == ordered;
    FieldOrderCanonical(ordered, arranged);
  }

  /** The bytes that are hashed determine the canonical text. */
  lemma CanonicalBytes(a: Value, b: Value)
    requires CanonicalText(a).Some? && CanonicalText(b).Some?
    ensures Encode(CanonicalText(a).value) == Encode(CanonicalText(b).value) <==> CanonicalText(a) == CanonicalText(b)
  {
    hide WellFormed, Encode, Stringify;
    StringifyWellFormed(Arrange(a), 0, 0);
    StringifyWellFormed(Arrange(b), 0, 0);
    EncodeInjective(CanonicalText(a).value, CanonicalText(b).value);
  }
}
