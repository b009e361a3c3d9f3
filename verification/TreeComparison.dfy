/**
 The two deep comparisons of JSON-like documents: the demo-seed check reports the
 first difference in a stable order, the recovery check answers yes or no.
 Mappings have string keys; floats are reals, so there is no NaN.
 */
module TreeComparison {
  import opened Wrappers
  import opened Text

  datatype Tree =
    | Null
    | Bool(b: bool)
    | Int(n: int)
    | Float(x: real)
    | Str(s: string)
    | List(items: seq<Tree>)
    | Dict(fields: map<string, Tree>)

  datatype Kind = NullKind | BoolKind | IntKind | FloatKind | StrKind | ListKind | DictKind

  function KindOf(t: Tree): Kind {
    match t
    case Null => NullKind
    case Bool(_) => BoolKind
    case Int(_) => IntKind
    case Float(_) => FloatKind
    case Str(_) => StrKind
    case List(_) => ListKind
    case Dict(_) => DictKind
  }

  // ------------------------------------------------------------------
  // The yes/no comparison
  // ------------------------------------------------------------------

  predicate ExactDocument(actual: Tree, expected: Tree)
    decreases expected
  {
    if KindOf(actual) != KindOf(expected) then false
    else
      match expected
      case Dict(fields) =>
        actual.fields.Keys == fields.Keys && forall k :: k in fields ==> ExactDocument(actual.fields[k], fields[k])
      case List(items) =>
        |actual.items| == |items| && forall i :: 0 <= i < |items| ==> ExactDocument(actual.items[i], items[i])
      case _ => actual == expected
  }

  lemma {:induction false} ExactMeansEqual(actual: Tree, expected: Tree)
    ensures ExactDocument(actual, expected) <==> actual == expected
    decreases expected
  {
    if KindOf(actual) == KindOf(expected) {
      match expected
      case Dict(fields) =>
        forall k | k in fields && k in actual.fields
          ensures ExactDocument(actual.fields[k], fields[k]) <==> actual.fields[k] == fields[k]
        {
          ExactMeansEqual(actual.fields[k], fields[k]);
        }
        assert actual.fields == fields <==>
          actual.fields.Keys == fields.Keys && forall k :: k in fields ==> actual.fields[k] == fields[k];
      case List(items) =>
        if |actual.items| == |items| {
          forall i | 0 <= i < |items|
            ensures ExactDocument(actual.items[i], items[i]) <==> actual.items[i] == items[i]
          {
            ExactMeansEqual(actual.items[i], items[i]);
          }
        }
      case _ =>
    }
  }

  // ------------------------------------------------------------------
  // The reporting comparison
  // ------------------------------------------------------------------

  datatype Place = Key(key: string) | Index(index: nat)

  datatype Reason =
    | KindsDiffer(expectedKind: Kind, observedKind: Kind)
    | KeysDiffer(missing: seq<string>, unexpected: seq<string>)
    | LengthsDiffer(expectedLength: nat, observedLength: nat)
    | ValuesDiffer(expectedValue: Tree, observedValue: Tree)

  datatype Difference = Difference(path: seq<Place>, reason: Reason)

  /** The reason really is what separates the two trees at their roots. */
  ghost predicate Separates(reason: Reason, e: Tree, a: Tree) {
    match reason
    case KindsDiffer(ek, ak) => ek == KindOf(e) && ak == KindOf(a) && ek != ak
    case KeysDiffer(missing, unexpected) =>
      && e.Dict? && a.Dict? && e.fields.Keys != a.fields.Keys
      && missing == Sorted(e.fields.Keys - a.fields.Keys)
      && unexpected == Sorted(a.fields.Keys - e.fields.Keys)
    case LengthsDiffer(el, al) => e.List? && a.List? && |e.items| == el && |a.items| == al && el != al
    case ValuesDiffer(ev, av) => ev == e && av == a && e != a && KindOf(e) == KindOf(a) && !e.Dict? && !e.List?
  }

  /**
   Walking `path` through both trees, everything that comes earlier in traversal
   order (smaller keys, smaller indices, and the shapes on the way) agrees, and at
   its end `reason` separates them.
   */
  ghost predicate FirstAt(e: Tree, a: Tree, path: seq<Place>, reason: Reason)
    decreases |path|
  {
    if path == [] then Separates(reason, e, a)
    else
      match path[0]
      case Key(k) =>
        && e.Dict? && a.Dict? && e.fields.Keys == a.fields.Keys && k in e.fields
        && (forall j :: j in e.fields && Less(j, k) ==> e.fields[j] == a.fields[j])
        && FirstAt(e.fields[k], a.fields[k], path[1..], reason)
      case Index(i) =>
        && e.List? && a.List? && |e.items| == |a.items| && i < |e.items|
        && e.items[..i] == a.items[..i]
        && FirstAt(e.items[i], a.items[i], path[1..], reason)
  }

  lemma {:induction false} FirstAtDiffers(e: Tree, a: Tree, path: seq<Place>, reason: Reason)
    requires FirstAt(e, a, path, reason)
    ensures e != a
    decreases |path|
  {
    if path != [] {
      match path[0]
      case Key(k) => FirstAtDiffers(e.fields[k], a.fields[k], path[1..], reason);
      case Index(i) => FirstAtDiffers(e.items[i], a.items[i], path[1..], reason);
    }
  }

  /** A pair of trees has at most one first difference. */
  lemma {:induction false} FirstAtUnique(e: Tree, a: Tree, p: seq<Place>, r: Reason, p': seq<Place>, r': Reason)
    requires FirstAt(e, a, p, r) && FirstAt(e, a, p', r')
    ensures p == p' && r == r'
    decreases |p|
  {
    hide Sorted;
    if p != [] && p' != [] {
      assert p == [p[0]] + p[1..] && p' == [p'[0]] + p'[1..];
      match (p[0], p'[0])
      case (Key(k), Key(k')) =>
        LessIsTotal(k, k');
        FirstAtDiffers(e.fields[k], a.fields[k], p[1..], r);
        FirstAtDiffers(e.fields[k'], a.fields[k'], p'[1..], r');
        FirstAtUnique(e.fields[k], a.fields[k], p[1..], r, p'[1..], r');
      case (Index(i), Index(i')) =>
        assert i < i' ==> e.items[..i'][i] == a.items[..i'][i];
        assert i' < i ==> e.items[..i][i'] == a.items[..i][i'];
        FirstAtDiffers(e.items[i], a.items[i], p[1..], r);
        FirstAtDiffers(e.items[i'], a.items[i'], p'[1..], r');
        FirstAtUnique(e.items[i], a.items[i], p[1..], r, p'[1..], r');
      case _ =>
    }
  }

  /**
   No difference exactly when the trees are equal, which is when the yes/no
   comparison accepts; otherwise the difference is the first one.
   */
  method FirstDifference(e: Tree, a: Tree) returns (r: Option<Difference>)
    ensures r.None? <==> e == a
    ensures r.None? <==> ExactDocument(a, e)
    ensures r.Some? ==> FirstAt(e, a, r.value.path, r.value.reason)
    decreases e
  {
    ExactMeansEqual(a, e);
    hide ExactDocument, Sorted, Less;
    if KindOf(e) != KindOf(a) {
      return Some(Difference([], KindsDiffer(KindOf(e), KindOf(a))));
    }
    if e.Dict? {
      if e.fields.Keys != a.fields.Keys {
        var missing := Sorted(e.fields.Keys - a.fields.Keys);
        var unexpected := Sorted(a.fields.Keys - e.fields.Keys);
        return Some(Difference([], KeysDiffer(missing, unexpected)));
      }
      var keys := Sorted(e.fields.Keys);
      for i := 0 to |keys|
        invariant forall j :: 0 <= j < i ==> e.fields[keys[j]] == a.fields[keys[j]]
      {
        var k := keys[i];
        var below := FirstDifference(e.fields[k], a.fields[k]);
        if below.Some? {
          EarlierKeysAgree(e.fields, a.fields, keys, i);
          var path := [Key(k)] + below.value.path;
          assert path[1..] == below.value.path;
          return Some(Difference(path, below.value.reason));
        }
      }
      assert forall k :: k in e.fields ==> k in keys;
      assert e.fields == a.fields;
      return None;
    }
    if e.List? {
      if |e.items| != |a.items| {
        return Some(Difference([], LengthsDiffer(|e.items|, |a.items|)));
      }
      for i := 0 to |e.items|
        invariant e.items[..i] == a.items[..i]
      {
        var below := FirstDifference(e.items[i], a.items[i]);
        if below.Some? {
          var path := [Index(i)] + below.value.path;
          assert path[1..] == below.value.path;
          return Some(Difference(path, below.value.reason));
        }
        assert e.items[..i + 1] == e.items[..i] + [e.items[i]];
        assert a.items[..i + 1] == a.items[..i] + [a.items[i]];
      }
      assert e.items == e.items[..|e.items|] && a.items == a.items[..|e.items|];
      return None;
    }
    if e != a {
      return Some(Difference([], ValuesDiffer(e, a)));
    }
    return None;
  }

  lemma EarlierKeysAgree(e: map<string, Tree>, a: map<string, Tree>, keys: seq<string>, i: nat)
    requires e.Keys == a.Keys && Ascending(keys) && i < |keys|
    requires forall k :: k in keys <==> k in e
    requires forall j :: 0 <= j < i ==> e[keys[j]] == a[keys[j]]
    ensures forall k :: k in e && Less(k, keys[i]) ==> e[k] == a[k]
  {
    forall k | k in e && Less(k, keys[i])
      ensures e[k] == a[k]
    {
      var j :| 0 <= j < |keys| && keys[j] == k;
      LessIsTotal(keys[i], keys[j]);
    }
  }
}
