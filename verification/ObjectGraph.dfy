/** `visit` as it runs: over an arbitrary object graph, with a shared node counter and early refusal. */
module ObjectGraph {
  import opened Strings
  import opened Ordering
  import Utf8
  import opened Json
  import opened Canonical

  type Ref = nat

  /** One object or primitive of the graph. Children are references, so sharing and cycles are possible. */
  datatype Node =
    | Leaf(v: Value)                       // anything but an array or a plain object
    | Items(refs: seq<Ref>)
    | Fields(entries: seq<Named<Ref>>)

  type Graph = Ref -> Node

  /** Objects never repeat a name; leaves are not containers. */
  ghost predicate WellFormed(g: Graph) {
    forall r {:trigger g(r)} ::
      && (g(r).Leaf? ==> !g(r).v.Arr? && !g(r).v.Obj?)
      && (g(r).Fields? ==> DistinctNames(g(r).entries))
  }

  // -------------------------------------------------- the counting visitor

  datatype Outcome<+T> = Done(value: T, nodes: nat) | Refused(nodes: nat)

  /** What `visit(g[r], depth)` does when `nodes` values were counted before. */
  function Visit(g: Graph, r: Ref, depth: nat, nodes: nat): Outcome<Value>
    requires depth <= MAX_DEPTH + 1
    decreases MAX_DEPTH + 1 - depth, 1, 0
  {
    if nodes + 1 > MAX_NODES || depth > MAX_DEPTH then Refused(nodes + 1)
    else match g(r)
      case Leaf(v) =>
        if (v.Str? && |v.s| > MAX_STRING) || v.Foreign? || (v.Num? && v.n.NotFinite?) then Refused(nodes + 1)
        else Done(v, nodes + 1)
      case Items(refs) =>
        if |refs| > MAX_ITEMS then Refused(nodes + 1)
        else (match VisitItems(g, refs, depth + 1, nodes + 1)
          case Done(items, n) => Done(Arr(items), n)
          case Refused(n) => Refused(n))
      case Fields(entries) =>
        if |entries| > MAX_NAMES then Refused(nodes + 1)
        else (match VisitFields(g, SortByName(entries), depth + 1, nodes + 1)
          case Done(fields, n) => Done(Obj(ListingOrder(fields)), n)
          case Refused(n) => Refused(n))
  }

  function VisitItems(g: Graph, refs: seq<Ref>, depth: nat, nodes: nat): Outcome<seq<Value>>
    requires depth <= MAX_DEPTH + 1
    decreases MAX_DEPTH + 1 - depth, 2, |refs|
  {
    if refs == [] then Done([], nodes)
    else match Visit(g, refs[0], depth, nodes)
      case Refused(n) => Refused(n)
      case Done(v, n) =>
        (match VisitItems(g, refs[1..], depth, n)
         case Refused(m) => Refused(m)
         case Done(rest, m) => Done([v] + rest, m))
  }

  function VisitFields(g: Graph, entries: seq<Named<Ref>>, depth: nat, nodes: nat): Outcome<seq<Named<Value>>>
    requires depth <= MAX_DEPTH + 1
    decreases MAX_DEPTH + 1 - depth, 2, |entries|
  {
    if entries == [] then Done([], nodes)
    else match Visit(g, entries[0].item, depth, nodes)
      case Refused(n) => Refused(n)
      case Done(v, n) =>
        (match VisitFields(g, entries[1..], depth, n)
         case Refused(m) => Refused(m)
         case Done(rest, m) => Done([Named(entries[0].name, v)] + rest, m))
  }

  // ------------------------------------------------- as the script runs it

  /** The closure of `canonical`: its `nodes` counter is shared by every nested call. */
  class Canonicaliser {
    const g: Graph
    var nodes: nat

    constructor (g: Graph)
      ensures this.g == g && nodes == 0
    {
      this.g := g;
      nodes := 0;
    }

    method Run(r: Ref, depth: nat) returns (result: Option<Value>)
      requires depth <= MAX_DEPTH + 1
      modifies this
      ensures match Visit(g, r, depth, old(nodes))
              case Done(v, n) => result == Some(v) && nodes == n
              case Refused(n) => result == None && nodes == n
      decreases MAX_DEPTH + 1 - depth, 0
    {
      hide VisitItems, VisitFields, Sort, ListingOrder;
      nodes := nodes + 1;
      if nodes > MAX_NODES || depth > MAX_DEPTH {
        return None;
      }
      match g(r) {
        case Leaf(v) =>
          if (v.Str? && |v.s| > MAX_STRING) || v.Foreign? || (v.Num? && v.n.NotFinite?) {
            return None;
          }
          result := Some(v);
        case Items(refs) =>
          if |refs| > MAX_ITEMS {
            return None;
          }
          var items := RunItems(refs, depth + 1);
          result := if items.None? then None else Some(Arr(items.value));
        case Fields(entries) =>
          var names := SortByName(entries);
          if |names| > MAX_NAMES {
            return None;
          }
          var fields := RunFields(names, depth + 1);
          result := if fields.None? then None else Some(Obj(ListingOrder(fields.value)));
      }
    }

    method RunItems(refs: seq<Ref>, depth: nat) returns (result: Option<seq<Value>>)
      requires depth <= MAX_DEPTH + 1
      modifies this
      ensures match VisitItems(g, refs, depth, old(nodes))
              case Done(items, n) => result == Some(items) && nodes == n
              case Refused(n) => result == None && nodes == n
      decreases MAX_DEPTH + 1 - depth, 1
    {
      hide Visit;
      var items: seq<Value> := [];
      assert refs[0..] == refs;
      ResumeNothing(VisitItems(g, refs, depth, nodes));
      for i := 0 to |refs|
        invariant VisitItems(g, refs, depth, old(nodes)) == Resume(items, VisitItems(g, refs[i..], depth, nodes))
      {
        assert refs[i..][0] == refs[i] && refs[i..][1..] == refs[i + 1..];
        var v := Run(refs[i], depth);
        if v.None? {
          return None;
        }
        ResumeStep(items, v.value, VisitItems(g, refs[i + 1..], depth, nodes));
        items := items + [v.value];
      }
      assert refs[|refs|..] == [] && items + [] == items;
      return Some(items);
    }

    method RunFields(names: seq<Named<Ref>>, depth: nat) returns (result: Option<seq<Named<Value>>>)
      requires depth <= MAX_DEPTH + 1
      modifies this
      ensures match VisitFields(g, names, depth, old(nodes))
              case Done(fields, n) => result == Some(fields) && nodes == n
              case Refused(n) => result == None && nodes == n
      decreases MAX_DEPTH + 1 - depth, 1
    {
      hide Visit;
      var fields: seq<Named<Value>> := [];
      assert names[0..] == names;
      ResumeNothing(VisitFields(g, names, depth, nodes));
      for i := 0 to |names|
        invariant VisitFields(g, names, depth, old(nodes)) == Resume(fields, VisitFields(g, names[i..], depth, nodes))
      {
        assert names[i..][0] == names[i] && names[i..][1..] == names[i + 1..];
        var v := Run(names[i].item, depth);
        if v.None? {
          return None;
        }
        ResumeStep(fields, Named(names[i].name, v.value), VisitFields(g, names[i + 1..], depth, nodes));
        fields := fields + [Named(names[i].name, v.value)];
      }
      assert names[|names|..] == [] && fields + [] == fields;
      return Some(fields);
    }
  }

  function Resume<T>(done: seq<T>, rest: Outcome<seq<T>>): Outcome<seq<T>> {
    match rest
    case Refused(n) => Refused(n)
    case Done(more, n) => Done(done + more, n)
  }

  lemma ResumeNothing<T>(rest: Outcome<seq<T>>)
    ensures Resume([], rest) == rest
  {
    if rest.Done? {
      assert [] + rest.value == rest.value;
    }
  }

  lemma ResumeStep<T>(done: seq<T>, next: T, rest: Outcome<seq<T>>)
    ensures Resume(done + [next], rest) ==
            Resume(done, match rest case Refused(n) => Refused(n) case Done(more, n) => Done([next] + more, n))
  {
    if rest.Done? {
      assert done + [next] + rest.value == done + ([next] + rest.value);
    }
  }

  /** `canonical` on the object at `r`. */
  method CanonicalOf(g: Graph, r: Ref) returns (json: Option<Text>)
    ensures json == VisitedText(g, r)
  {
    var run := new Canonicaliser(g);
    var v := run.Run(r, 0);
    if v.None? {
      return None;
    }
    var text := Stringify(v.value, 0, 0);
    if |Utf8.Encode(text)| > MAX_BYTES {
      return None;
    }
    return Some(text);
  }

  function VisitedText(g: Graph, r: Ref): Option<Text> {
    match Visit(g, r, 0, 0)
    case Refused(_) => None
    case Done(v, _) => if |Utf8.Encode(Stringify(v, 0, 0))| > MAX_BYTES then None else Some(Stringify(v, 0, 0))
  }

  // ------------------------------------------------ the tree behind a graph

  /** The object at `r` is the finite tree `v`. A cyclic object is no tree. */
  ghost predicate Represents(g: Graph, r: Ref, v: Value)
    decreases v
  {
    match v
    case Arr(items) =>
      && g(r).Items? && |g(r).refs| == |items|
      && forall i :: 0 <= i < |items| ==> Represents(g, g(r).refs[i], items[i])
    case Obj(fields) =>
      && g(r).Fields? && |g(r).entries| == |fields|
      && forall i :: 0 <= i < |fields| ==>
           g(r).entries[i].name == fields[i].name && Represents(g, g(r).entries[i].item, fields[i].item)
    case _ => g(r) == Leaf(v)
  }

  /** The tree seen from `r`, cut below the depth limit. */
  function Unfold(g: Graph, r: Ref, depth: nat): Value
    requires depth <= MAX_DEPTH + 1
    decreases MAX_DEPTH + 1 - depth, 0
  {
    if depth > MAX_DEPTH then Foreign
    else match g(r)
      case Leaf(v) => v
      case Items(refs) => Arr(seq(|refs|, i requires 0 <= i < |refs| => Unfold(g, refs[i], depth + 1)))
      case Fields(entries) => Obj(UnfoldEntries(g, entries, depth + 1))
  }

  function UnfoldEntries(g: Graph, entries: seq<Named<Ref>>, depth: nat): (r: seq<Named<Value>>)
    requires depth <= MAX_DEPTH + 1
    ensures |r| == |entries|
    decreases MAX_DEPTH + 1 - depth, 1
  {
    seq(|entries|, i requires 0 <= i < |entries| => Named(entries[i].name, Unfold(g, entries[i].item, depth)))
  }

  lemma {:induction false} RepresentsUnique(g: Graph, r: Ref, a: Value, b: Value)
    requires Represents(g, r, a) && Represents(g, r, b)
    ensures a == b
    decreases a
  {
    match a
    case Arr(items) =>
      forall i | 0 <= i < |items| ensures items[i] == b.items[i] {
        RepresentsUnique(g, g(r).refs[i], items[i], b.items[i]);
      }
      assert items == b.items;
    case Obj(fields) =>
      forall i | 0 <= i < |fields| ensures fields[i] == b.fields[i] {
        RepresentsUnique(g, g(r).entries[i].item, fields[i].item, b.fields[i].item);
      }
      assert fields == b.fields;
    case _ =>
  }

  lemma {:induction false} UnfoldRepresents(g: Graph, r: Ref, depth: nat)
    requires WellFormed(g) && depth <= MAX_DEPTH + 1
    requires Bounded(Unfold(g, r, depth), depth)
    ensures Represents(g, r, Unfold(g, r, depth)) && Distinct(Unfold(g, r, depth))
    decreases MAX_DEPTH + 1 - depth
  {
    var u := Unfold(g, r, depth);
    assert depth <= MAX_DEPTH;
    match g(r)
    case Leaf(v) =>
    case Items(refs) =>
      forall i | 0 <= i < |refs| ensures Represents(g, refs[i], u.items[i]) && Distinct(u.items[i]) {
        assert u.items[i] == Unfold(g, refs[i], depth + 1);
        UnfoldRepresents(g, refs[i], depth + 1);
      }
    case Fields(entries) =>
      forall i | 0 <= i < |entries|
        ensures Represents(g, entries[i].item, u.fields[i].item) && Distinct(u.fields[i].item)
      {
        assert u.fields[i].item == Unfold(g, entries[i].item, depth + 1);
        UnfoldRepresents(g, entries[i].item, depth + 1);
      }
      assert DistinctNames(u.fields);
  }

  lemma {:induction false} RepresentedUnfolds(g: Graph, r: Ref, v: Value, depth: nat)
    requires depth <= MAX_DEPTH + 1 && Represents(g, r, v) && Bounded(v, depth)
    ensures Unfold(g, r, depth) == v
    decreases v
  {
    var u := Unfold(g, r, depth);
    match v
    case Arr(items) =>
      forall i | 0 <= i < |items| ensures u.items[i] == items[i] {
        assert u.items[i] == Unfold(g, g(r).refs[i], depth + 1);
        RepresentedUnfolds(g, g(r).refs[i], items[i], depth + 1);
      }
      assert u.items == items;
    case Obj(fields) =>
      var entries := g(r).entries;
      assert u == Obj(UnfoldEntries(g, entries, depth + 1));
      forall i | 0 <= i < |fields| ensures u.fields[i] == fields[i] {
        assert u.fields[i] == Named(entries[i].name, Unfold(g, entries[i].item, depth + 1));
        RepresentedUnfolds(g, g(r).entries[i].item, fields[i].item, depth + 1);
      }
      assert u.fields == fields;
    case _ =>
  }

  // ---------------------------------------------------- visitor = measure

  /** Sorting entries and unfolding them commute: only names are compared. */
  lemma {:induction false} SortUnfold(g: Graph, entries: seq<Named<Ref>>, depth: nat)
    requires depth <= MAX_DEPTH + 1
    ensures UnfoldEntries(g, SortByName(entries), depth) == SortByName(UnfoldEntries(g, entries, depth))
  {
    hide Unfold, NameBefore, Insert;
    if entries != [] {
      SortUnfold(g, entries[1..], depth);
      var u := UnfoldEntries(g, entries, depth);
      assert u[1..] == UnfoldEntries(g, entries[1..], depth);
      InsertUnfold(g, entries[0], SortByName(entries[1..]), depth);
    }
  }

  lemma UnfoldCons(g: Graph, x: Named<Ref>, s: seq<Named<Ref>>, depth: nat)
    requires depth <= MAX_DEPTH + 1
    ensures UnfoldEntries(g, [x] + s, depth) == [Named(x.name, Unfold(g, x.item, depth))] + UnfoldEntries(g, s, depth)
  {
  }

  lemma {:induction false} InsertUnfold(g: Graph, x: Named<Ref>, s: seq<Named<Ref>>, depth: nat)
    requires depth <= MAX_DEPTH + 1
    ensures UnfoldEntries(g, Insert(x, s, NameBefore), depth)
         == Insert(Named(x.name, Unfold(g, x.item, depth)), UnfoldEntries(g, s, depth), NameBefore)
  {
    hide Unfold, UnfoldEntries, LexLess;
    if s != [] {
      assert s == [s[0]] + s[1..];
      UnfoldCons(g, s[0], s[1..], depth);
      var u := UnfoldEntries(g, s, depth);
      assert u[1..] == UnfoldEntries(g, s[1..], depth);
      if NameBefore(s[0], x) {
        InsertUnfold(g, x, s[1..], depth);
        UnfoldCons(g, s[0], Insert(x, s[1..], NameBefore), depth);
      } else {
        UnfoldCons(g, x, s, depth);
      }
    } else {
      UnfoldCons(g, x, [], depth);
      assert [x] + [] == [x];
    }
  }

  lemma {:induction false} SortArrange(fields: seq<Named<Value>>)
    ensures ArrangeItems(SortByName(fields)) == SortByName(ArrangeItems(fields))
  {
    hide Arrange, Insert, LexLess;
    if fields != [] {
      SortArrange(fields[1..]);
      var first := Named(fields[0].name, Arrange(fields[0].item));
      assert ArrangeItems(fields)[1..] == ArrangeItems(fields[1..]) && ArrangeItems(fields)[0] == first;
      InsertArrange(fields[0], SortByName(fields[1..]));
    }
  }

  lemma ArrangeCons(x: Named<Value>, s: seq<Named<Value>>)
    ensures ArrangeItems([x] + s) == [Named(x.name, Arrange(x.item))] + ArrangeItems(s)
  {
  }

  lemma {:induction false} InsertArrange(x: Named<Value>, s: seq<Named<Value>>)
    ensures ArrangeItems(Insert(x, s, NameBefore))
         == Insert(Named(x.name, Arrange(x.item)), ArrangeItems(s), NameBefore)
  {
    hide Arrange, ArrangeItems, LexLess;
    if s != [] {
      assert s == [s[0]] + s[1..];
      ArrangeCons(s[0], s[1..]);
      var u := ArrangeItems(s);
      assert u[1..] == ArrangeItems(s[1..]);
      if NameBefore(s[0], x) {
        InsertArrange(x, s[1..]);
        ArrangeCons(s[0], Insert(x, s[1..], NameBefore));
      } else {
        ArrangeCons(x, s);
      }
    } else {
      ArrangeCons(x, []);
      assert [x] + [] == [x];
    }
  }

  /** The outcome the pure size-and-depth test predicts. */
  ghost predicate Predicted(o: Outcome<Value>, v: Value, depth: nat, nodes: nat) {
    && (o.Done? <==> Bounded(v, depth) && nodes + Size(v) <= MAX_NODES)
    && (o.Done? ==> o.value == Arrange(v) && o.nodes == nodes + Size(v))
  }

  ghost predicate AllBounded(items: seq<Value>, depth: nat) {
    forall i :: 0 <= i < |items| ==> Bounded(items[i], depth)
  }

  ghost predicate FieldsBounded(fields: seq<Named<Value>>, depth: nat) {
    forall i :: 0 <= i < |fields| ==> Bounded(fields[i].item, depth)
  }

  /** The counter-carrying recursion refines the pure test. */
  lemma {:induction false} VisitMeasures(g: Graph, r: Ref, depth: nat, nodes: nat)
    requires WellFormed(g) && depth <= MAX_DEPTH + 1 && nodes <= MAX_NODES
    ensures Predicted(Visit(g, r, depth, nodes), Unfold(g, r, depth), depth, nodes)
    decreases MAX_DEPTH + 1 - depth, 1, 0
  {
    hide VisitItems, VisitFields, SortByName, UnfoldEntries, SizeItems, SizeFields;
    if nodes + 1 > MAX_NODES || depth > MAX_DEPTH {
    } else {
      match g(r)
      case Leaf(v) =>
      case Items(refs) =>
        if |refs| <= MAX_ITEMS {
          VisitItemsMeasures(g, refs, depth + 1, nodes + 1);
        }
        AssembleItems(g, r, refs, depth, nodes);
      case Fields(entries) =>
        if |entries| <= MAX_NAMES {
          VisitFieldsMeasures(g, SortByName(entries), depth + 1, nodes + 1);
        }
        AssembleFields(g, r, entries, depth, nodes);
    }
  }

  function UnfoldAll(g: Graph, refs: seq<Ref>, depth: nat): (r: seq<Value>)
    requires depth <= MAX_DEPTH + 1
    ensures |r| == |refs|
  {
    seq(|refs|, i requires 0 <= i < |refs| => Unfold(g, refs[i], depth))
  }

  ghost predicate PredictedItems(o: Outcome<seq<Value>>, items: seq<Value>, depth: nat, nodes: nat) {
    && (o.Done? <==> AllBounded(items, depth) && nodes + SizeItems(items) <= MAX_NODES)
    && (o.Done? ==> o.value == Arrange(Arr(items)).items && o.nodes == nodes + SizeItems(items))
  }

  ghost predicate PredictedFields(o: Outcome<seq<Named<Value>>>, fields: seq<Named<Value>>, depth: nat, nodes: nat) {
    && (o.Done? <==> FieldsBounded(fields, depth) && nodes + SizeFields(fields) <= MAX_NODES)
    && (o.Done? ==> o.value == ArrangeItems(fields) && o.nodes == nodes + SizeFields(fields))
  }

  lemma AssembleItems(g: Graph, r: Ref, refs: seq<Ref>, depth: nat, nodes: nat)
    requires depth <= MAX_DEPTH && nodes + 1 <= MAX_NODES && g(r) == Items(refs)
    requires |refs| <= MAX_ITEMS ==>
               PredictedItems(VisitItems(g, refs, depth + 1, nodes + 1), UnfoldAll(g, refs, depth + 1), depth + 1,
                 nodes + 1)
    ensures Predicted(Visit(g, r, depth, nodes), Unfold(g, r, depth), depth, nodes)
  {
    hide VisitItems;
    assert Unfold(g, r, depth) == Arr(UnfoldAll(g, refs, depth + 1));
  }

  lemma AssembleFields(g: Graph, r: Ref, entries: seq<Named<Ref>>, depth: nat, nodes: nat)
    requires depth <= MAX_DEPTH && nodes + 1 <= MAX_NODES && g(r) == Fields(entries)
    requires |entries| <= MAX_NAMES ==>
               PredictedFields(VisitFields(g, SortByName(entries), depth + 1, nodes + 1),
                               UnfoldEntries(g, SortByName(entries), depth + 1), depth + 1, nodes + 1)
    ensures Predicted(Visit(g, r, depth, nodes), Unfold(g, r, depth), depth, nodes)
  {
    hide VisitFields, ListingOrder, SortByName, UnfoldEntries;
    var u := UnfoldEntries(g, entries, depth + 1);
    var sorted := SortByName(u);
    assert Unfold(g, r, depth) == Obj(u);
    SortUnfold(g, entries, depth + 1);
    SortArrange(u);
    SortedSame(u);
    BoundedSorted(u, sorted, depth + 1);
    SizePermutes(sorted, u);
  }

  lemma SortedSame(u: seq<Named<Value>>)
    ensures multiset(SortByName(u)) == multiset(u) && SameElements(SortByName(u), u)
  {
    SortElements(u, NameBefore);
  }

  lemma BoundedSorted(a: seq<Named<Value>>, b: seq<Named<Value>>, depth: nat)
    requires SameElements(a, b)
    ensures FieldsBounded(a, depth) <==> FieldsBounded(b, depth)
  {
    if FieldsBounded(a, depth) {
      BoundedElements(a, b, depth);
    }
    if FieldsBounded(b, depth) {
      BoundedElements(b, a, depth);
    }
  }

  lemma ArrangeFirst(items: seq<Value>)
    requires items != []
    ensures Arrange(Arr(items)).Arr? && Arrange(Arr(items[1..])).Arr?
    ensures Arrange(Arr(items)).items == [Arrange(items[0])] + Arrange(Arr(items[1..])).items
  {
  }

  lemma ArrangeNothing()
    ensures Arrange(Arr([])) == Arr([])
  {
    assert Arrange(Arr([])).items == [];
  }

  lemma {:induction false} VisitItemsMeasures(g: Graph, refs: seq<Ref>, depth: nat, nodes: nat)
    requires WellFormed(g) && depth <= MAX_DEPTH + 1 && nodes <= MAX_NODES
    ensures PredictedItems(VisitItems(g, refs, depth, nodes), UnfoldAll(g, refs, depth), depth, nodes)
    decreases MAX_DEPTH + 1 - depth, 2, |refs|
  {
    hide Visit, Unfold, Bounded, Arrange, Size;
    ArrangeNothing();
    var items := UnfoldAll(g, refs, depth);
    if refs != [] {
      VisitMeasures(g, refs[0], depth, nodes);
      var first := Visit(g, refs[0], depth, nodes);
      assert items[1..] == UnfoldAll(g, refs[1..], depth);
      assert AllBounded(items, depth) <==> Bounded(items[0], depth) && AllBounded(items[1..], depth);
      if first.Done? {
        VisitItemsMeasures(g, refs[1..], depth, first.nodes);
        ArrangeFirst(items);
      }
    }
  }

  lemma {:induction false} VisitFieldsMeasures(g: Graph, entries: seq<Named<Ref>>, depth: nat, nodes: nat)
    requires WellFormed(g) && depth <= MAX_DEPTH + 1 && nodes <= MAX_NODES
    ensures PredictedFields(VisitFields(g, entries, depth, nodes), UnfoldEntries(g, entries, depth), depth, nodes)
    decreases MAX_DEPTH + 1 - depth, 2, |entries|
  {
    hide Visit, Unfold, Bounded, Arrange, Size;
    var fields := UnfoldEntries(g, entries, depth);
    if entries != [] {
      VisitMeasures(g, entries[0].item, depth, nodes);
      var first := Visit(g, entries[0].item, depth, nodes);
      assert fields[1..] == UnfoldEntries(g, entries[1..], depth);
      assert FieldsBounded(fields, depth) <==> Bounded(fields[0].item, depth) && FieldsBounded(fields[1..], depth);
      if first.Done? {
        VisitFieldsMeasures(g, entries[1..], depth, first.nodes);
        assert ArrangeItems(fields) == [Named(fields[0].name, Arrange(fields[0].item))] + ArrangeItems(fields[1..]);
      }
    }
  }

  // ---------------------------------------------------------- main results

  /** `canonical` accepts a graph exactly when it is a finite tree inside every bound, and then its text is
      the canonical text of that tree. */
  lemma AcceptsExactly(g: Graph, r: Ref, t: Value)
    requires WellFormed(g) && Represents(g, r, t)
    ensures VisitedText(g, r) == CanonicalText(t)
  {
    VisitMeasures(g, r, 0, 0);
    var u := Unfold(g, r, 0);
    if Bounded(t, 0) {
      RepresentedUnfolds(g, r, t, 0);
    }
    if Bounded(u, 0) {
      UnfoldRepresents(g, r, 0);
      RepresentsUnique(g, r, t, u);
    }
  }

  lemma AcceptedIsTree(g: Graph, r: Ref)
    requires WellFormed(g) && VisitedText(g, r).Some?
    ensures exists t :: Represents(g, r, t) && Distinct(t) && CanonicalText(t) == VisitedText(g, r)
  {
    VisitMeasures(g, r, 0, 0);
    var u := Unfold(g, r, 0);
    UnfoldRepresents(g, r, 0);
    AcceptsExactly(g, r, u);
    assert Represents(g, r, u) && Distinct(u) && CanonicalText(u) == VisitedText(g, r);
  }

  /** At most 20001 values are ever visited, on any graph. */
  lemma {:induction false} VisitsBounded(g: Graph, r: Ref, depth: nat, nodes: nat)
    requires depth <= MAX_DEPTH + 1 && nodes <= MAX_NODES
    ensures var o := Visit(g, r, depth, nodes); nodes < o.nodes <= MAX_NODES + 1 && (o.Done? ==> o.nodes <= MAX_NODES)
    decreases MAX_DEPTH + 1 - depth, 1, 0
  {
    hide VisitItems, VisitFields, SortByName, ListingOrder;
    if nodes + 1 <= MAX_NODES && depth <= MAX_DEPTH {
      if g(r).Items? {
        VisitsBoundedItems(g, g(r).refs, depth + 1, nodes + 1);
      } else if g(r).Fields? {
        VisitsBoundedFields(g, SortByName(g(r).entries), depth + 1, nodes + 1);
      }
    }
  }

  lemma {:induction false} VisitsBoundedItems(g: Graph, refs: seq<Ref>, depth: nat, nodes: nat)
    requires depth <= MAX_DEPTH + 1 && nodes <= MAX_NODES
    ensures var o := VisitItems(g, refs, depth, nodes);
            nodes <= o.nodes <= MAX_NODES + 1 && (o.Done? ==> o.nodes <= MAX_NODES)
    decreases MAX_DEPTH + 1 - depth, 2, |refs|
  {
    hide Visit;
    if refs != [] {
      VisitsBounded(g, refs[0], depth, nodes);
      var first := Visit(g, refs[0], depth, nodes);
      if first.Done? {
        VisitsBoundedItems(g, refs[1..], depth, first.nodes);
      }
    }
  }

  lemma {:induction false} VisitsBoundedFields(g: Graph, entries: seq<Named<Ref>>, depth: nat, nodes: nat)
    requires depth <= MAX_DEPTH + 1 && nodes <= MAX_NODES
    ensures var o := VisitFields(g, entries, depth, nodes);
            nodes <= o.nodes <= MAX_NODES + 1 && (o.Done? ==> o.nodes <= MAX_NODES)
    decreases MAX_DEPTH + 1 - depth, 2, |entries|
  {
    hide Visit;
    if entries != [] {
      VisitsBounded(g, entries[0].item, depth, nodes);
      var first := Visit(g, entries[0].item, depth, nodes);
      if first.Done? {
        VisitsBoundedFields(g, entries[1..], depth, first.nodes);
      }
    }
  }

  // ----------------------------------------------------------------- cycles

  predicate IsChild(g: Graph, parent: Ref, child: Ref) {
    match g(parent)
    case Leaf(_) => false
    case Items(refs) => child in refs
    case Fields(entries) => exists i :: 0 <= i < |entries| && entries[i].item == child
  }

  /** A walk from its first to its last reference along children. */
  ghost predicate IsWalk(g: Graph, walk: seq<Ref>) {
    walk != [] && forall i :: 0 <= i < |walk| - 1 ==> IsChild(g, walk[i], walk[i + 1])
  }

  lemma Child(g: Graph, parent: Ref, r: Ref, t: Value) returns (sub: Value)
    requires IsChild(g, parent, r) && Represents(g, parent, t)
    ensures Represents(g, r, sub) && Size(sub) < Size(t)
  {
    if t.Arr? {
      var i :| 0 <= i < |t.items| && g(parent).refs[i] == r;
      sub := t.items[i];
      ItemSmaller(t.items, i);
    } else {
      var i :| 0 <= i < |t.fields| && g(parent).entries[i].item == r;
      sub := t.fields[i].item;
      FieldSmaller(t.fields, i);
    }
  }

  /** Walking down a tree reaches a subtree, smaller for every step taken. */
  lemma {:induction false} WalkShrinks(g: Graph, walk: seq<Ref>, t: Value) returns (sub: Value)
    requires IsWalk(g, walk) && Represents(g, walk[0], t)
    ensures Represents(g, walk[|walk| - 1], sub)
    ensures Size(sub) <= Size(t) && (|walk| > 1 ==> Size(sub) < Size(t))
    decreases |walk|
  {
    if |walk| == 1 {
      return t;
    }
    assert IsChild(g, walk[0], walk[1]);
    var child := Child(g, walk[0], walk[1], t);
    assert forall i :: 0 <= i < |walk[1..]| - 1 ==> IsChild(g, walk[1..][i], walk[1..][i + 1]);
    sub := WalkShrinks(g, walk[1..], child);
  }

  lemma {:induction false} ItemSmaller(items: seq<Value>, i: nat)
    requires i < |items|
    ensures Size(items[i]) <= SizeItems(items)
  {
    if i > 0 {
      ItemSmaller(items[1..], i - 1);
    }
  }

  lemma {:induction false} FieldSmaller(fields: seq<Named<Value>>, i: nat)
    requires i < |fields|
    ensures Size(fields[i].item) <= SizeFields(fields)
  {
    if i > 0 {
      FieldSmaller(fields[1..], i - 1);
    }
  }

  /** Whatever reaches a cycle is refused. */
  lemma CycleRefused(g: Graph, entry: seq<Ref>, cycle: seq<Ref>)
    requires WellFormed(g)
    requires IsWalk(g, entry) && IsWalk(g, cycle)
    requires entry[|entry| - 1] == cycle[0] == cycle[|cycle| - 1] && |cycle| > 1
    ensures VisitedText(g, entry[0]) == None
  {
    if VisitedText(g, entry[0]).Some? {
      AcceptedIsTree(g, entry[0]);
      var t :| Represents(g, entry[0], t);
      var onCycle := WalkShrinks(g, entry, t);
      var again := WalkShrinks(g, cycle, onCycle);
      RepresentsUnique(g, cycle[0], onCycle, again);
      assert false;
    }
  }
}
