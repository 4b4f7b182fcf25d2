/** Which values have a canonical text, said of every value inside them and in plain numbers. */
module CanonicalBounds {
  import opened Strings
  import opened Utf8
  import opened Json
  import opened Canonical
  import opened JsonText

  /** The value at a path of positions, if it leads anywhere. */
  function Follow(v: Value, path: seq<nat>): Option<Value>
    decreases |path|
  {
    if path == [] then Some(v)
    else
      match v
      case Arr(items) => if path[0] < |items| then Follow(items[path[0]], path[1..]) else None
      case Obj(fields) => if path[0] < |fields| then Follow(fields[path[0]].item, path[1..]) else None
      case _ => None
  }

  /** What the script asks of one value, whatever is inside it. */
  predicate Fitting(v: Value) {
    match v
    case Str(s) => |s| <= 65536
    case Num(n) => !n.NotFinite?
    case Arr(items) => |items| <= 1000
    case Obj(fields) => |fields| <= 100
    case Foreign => false
    case _ => true
  }

  ghost predicate AllFitting(v: Value, depth: nat) {
    forall path :: Follow(v, path).Some? ==> depth + |path| <= 20 && Fitting(Follow(v, path).value)
  }

  /** The values directly inside. */
  function Inside(v: Value): seq<Value> {
    match v
    case Arr(items) => items
    case Obj(fields) => seq(|fields|, i requires 0 <= i < |fields| => fields[i].item)
    case _ => []
  }

  lemma FollowStep(v: Value, i: nat, path: seq<nat>)
    ensures Follow(v, []) == Some(v)
    ensures Follow(v, [i] + path) == if i < |Inside(v)| then Follow(Inside(v)[i], path) else None
  {
    assert ([i] + path)[1..] == path;
  }

  lemma AllFittingStep(v: Value, depth: nat)
    ensures AllFitting(v, depth) <==>
            depth <= 20 && Fitting(v) && forall i :: 0 <= i < |Inside(v)| ==> AllFitting(Inside(v)[i], depth + 1)
  {
    hide Follow, Inside, Fitting;
    FollowStep(v, 0, []);
    if AllFitting(v, depth) {
      assert Follow(v, []).Some?;
      forall i, path | 0 <= i < |Inside(v)| && Follow(Inside(v)[i], path).Some?
        ensures depth + 1 + |path| <= 20 && Fitting(Follow(Inside(v)[i], path).value)
      {
        FollowStep(v, i, path);
        assert Follow(v, [i] + path).Some?;
      }
    }
    if depth <= 20 && Fitting(v) && forall i :: 0 <= i < |Inside(v)| ==> AllFitting(Inside(v)[i], depth + 1) {
      forall path | Follow(v, path).Some? ensures depth + |path| <= 20 && Fitting(Follow(v, path).value) {
        if path != [] {
          FollowStep(v, path[0], path[1..]);
          assert path == [path[0]] + path[1..];
          assert AllFitting(Inside(v)[path[0]], depth + 1);
        }
      }
    }
  }

  lemma BoundedStep(v: Value, depth: nat)
    ensures Bounded(v, depth) <==>
            depth <= 20 && Fitting(v) && forall i :: 0 <= i < |Inside(v)| ==> Bounded(Inside(v)[i], depth + 1)
  {
    match v
    case Obj(fields) =>
      assert |Inside(v)| == |fields| && forall i :: 0 <= i < |fields| ==> Inside(v)[i] == fields[i].item;
      assert (forall i :: 0 <= i < |fields| ==> Bounded(fields[i].item, depth + 1)) <==>
             (forall i :: 0 <= i < |Inside(v)| ==> Bounded(Inside(v)[i], depth + 1)) by {
        hide Bounded;
      }
    case Arr(items) => assert Inside(v) == items;
    case _ => assert Inside(v) == [];
  }

  lemma {:induction false} BoundedFitting(v: Value, depth: nat)
    ensures Bounded(v, depth) <==> AllFitting(v, depth)
    decreases v
  {
    BoundedStep(v, depth);
    AllFittingStep(v, depth);
    hide Bounded, AllFitting, Fitting;
    forall i | 0 <= i < |Inside(v)| ensures Bounded(Inside(v)[i], depth + 1) <==> AllFitting(Inside(v)[i], depth + 1) {
      BoundedFitting(Inside(v)[i], depth + 1);
    }
  }

  /** Main result: a value has a canonical text exactly when no value inside it lies deeper than 20 or is too large by
      itself, at most 20000 values are inside, and the text has at most 262144 bytes. */
  lemma CanonicalExactly(v: Value)
    ensures CanonicalText(v).Some? <==>
            && (forall path :: Follow(v, path).Some? ==> |path| <= 20 && Fitting(Follow(v, path).value))
            && Size(v) <= 20000
            && |Encode(Concat(Tokens(Arrange(v))))| <= 262144
  {
    hide Bounded, Size, Follow, Fitting, Stringify, Tokens, Arrange, Encode;
    BoundedFitting(v, 0);
    StringifyTokens(Arrange(v), 0);
    assert AllFitting(v, 0) <==>
           forall path :: Follow(v, path).Some? ==> |path| <= 20 && Fitting(Follow(v, path).value);
  }
}
