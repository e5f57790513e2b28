/**
  The structural differ of `backend/compat/replay_traces.py`: `normalize_response` and
  `compare_responses` over JSON trees as Python loads them. A difference is kept as a path and a
  reason instead of a formatted string.
 */
module JsonDiff {

  /** A float as Python compares it: NaN differs from everything, itself included. */
  datatype Float = NaN | PosInf | NegInf | Finite(r: real)

  datatype Json =
    | Null
    | Bool(b: bool)
    | Int(n: int)
    | Float(f: Float)
    | Str(s: string)
    | List(items: seq<Json>)
    | Dict(fields: map<string, Json>)

  datatype Kind = NoneType | BoolType | IntType | FloatType | StrType | ListType | DictType

  function TypeOf(j: Json): Kind {
    match j
    case Null => NoneType
    case Bool(_) => BoolType
    case Int(_) => IntType
    case Float(_) => FloatType
    case Str(_) => StrType
    case List(_) => ListType
    case Dict(_) => DictType
  }

  /** Types tell exactly the constructors apart; in particular a truth value is not a number. */
  lemma TypesAre(x: Json, y: Json)
    ensures TypeOf(x) == TypeOf(y) <==>
      || (x.Null? && y.Null?) || (x.Bool? && y.Bool?) || (x.Int? && y.Int?) || (x.Float? && y.Float?)
      || (x.Str? && y.Str?) || (x.List? && y.List?) || (x.Dict? && y.Dict?)
    ensures x.Bool? && y.Int? ==> TypeOf(x) == BoolType && TypeOf(y) == IntType
  {
  }

  predicate IsLeaf(j: Json) { !j.List? && !j.Dict? }

  /** Python's `!=` on two leaves of the same type. */
  predicate LeafDiffers(x: Json, y: Json) {
    x != y || x == Float(NaN)
  }

  datatype Step = Key(key: string) | Index(i: nat)

  datatype Reason =
    | TypeMismatch(expected: Kind, actual: Kind)
    | ExtraKey(key: string)
    | MissingKey(key: string)
    | LengthMismatch(expectedLength: nat, actualLength: nat)
    | ValueMismatch(expectedValue: Json, actualValue: Json)

  datatype Diff = Diff(path: seq<Step>, reason: Reason)

  // ------------------------------------------------- what it means to differ at a place

  /** The two subtrees at one place differ for the given reason. */
  predicate DiffersHere(e: Json, a: Json, why: Reason) {
    match why
    case TypeMismatch(x, y) => TypeOf(e) == x && TypeOf(a) == y && x != y
    case ExtraKey(k) => e.Dict? && a.Dict? && k !in e.fields && k in a.fields
    case MissingKey(k) => e.Dict? && a.Dict? && k in e.fields && k !in a.fields
    case LengthMismatch(m, n) => e.List? && a.List? && |e.items| == m && |a.items| == n && m != n
    case ValueMismatch(x, y) => e == x && a == y && TypeOf(e) == TypeOf(a) && IsLeaf(e) && LeafDiffers(e, a)
  }

  /** Both trees have a child at this step. */
  predicate Common(e: Json, a: Json, step: Step) {
    match step
    case Key(k) => e.Dict? && a.Dict? && k in e.fields && k in a.fields
    case Index(i) => e.List? && a.List? && i < |e.items| && i < |a.items|
  }

  function Child(j: Json, step: Step): Json
    requires step.Key? ==> j.Dict? && step.key in j.fields
    requires step.Index? ==> j.List? && step.i < |j.items|
  {
    match step
    case Key(k) => j.fields[k]
    case Index(i) => j.items[i]
  }

  /** Following the path in both trees leads to two places that differ for the given reason. */
  predicate IsDiff(e: Json, a: Json, d: Diff)
    decreases |d.path|
  {
    if d.path == [] then DiffersHere(e, a, d.reason)
    else Common(e, a, d.path[0]) && IsDiff(Child(e, d.path[0]), Child(a, d.path[0]), Diff(d.path[1..], d.reason))
  }

  /** What each entry of a report says of the trees it was made from. */
  lemma {:induction false} ReportMeans(e: Json, a: Json, k: string, i: nat, d: Diff)
    ensures IsDiff(e, a, Diff([], ExtraKey(k))) <==> e.Dict? && a.Dict? && k in a.fields.Keys - e.fields.Keys
    ensures IsDiff(e, a, Diff([], MissingKey(k))) <==> e.Dict? && a.Dict? && k in e.fields.Keys - a.fields.Keys
    ensures e.List? && a.List? && |e.items| != |a.items| ==> IsDiff(e, a, Diff([], LengthMismatch(|e.items|, |a.items|)))
    ensures TypeOf(e) != TypeOf(a) ==> IsDiff(e, a, Diff([], TypeMismatch(TypeOf(e), TypeOf(a))))
    ensures IsDiff(e, a, Under(Key(k), d)) <==>
              e.Dict? && a.Dict? && k in e.fields && k in a.fields && IsDiff(e.fields[k], a.fields[k], d)
    ensures IsDiff(e, a, Under(Index(i), d)) <==>
              e.List? && a.List? && i < |e.items| && i < |a.items| && IsDiff(e.items[i], a.items[i], d)
  {
    assert Under(Key(k), d).path[1..] == d.path && Under(Index(i), d).path[1..] == d.path;
  }

  function Under(step: Step, d: Diff): Diff {
    Diff([step] + d.path, d.reason)
  }

  function AllUnder(step: Step, ds: seq<Diff>): (r: seq<Diff>)
    ensures |r| == |ds| && forall i :: 0 <= i < |ds| ==> r[i] == Under(step, ds[i])
  {
    seq(|ds|, i requires 0 <= i < |ds| => Under(step, ds[i]))
  }

  ghost predicate NoRepeats(ds: seq<Diff>) {
    forall i, j :: 0 <= i < j < |ds| ==> ds[i] != ds[j]
  }

  /** A duplicate-free report of exactly the places where the trees differ. */
  ghost predicate Report(e: Json, a: Json, ds: seq<Diff>) {
    NoRepeats(ds) && forall d :: d in ds <==> IsDiff(e, a, d)
  }

  lemma {:induction false} UnderIsDiff(e: Json, a: Json, step: Step, ds: seq<Diff>, d: Diff)
    requires Common(e, a, step) && Report(Child(e, step), Child(a, step), ds)
    ensures d in AllUnder(step, ds) <==> d.path != [] && d.path[0] == step && IsDiff(e, a, d)
  {
    if d.path != [] && d.path[0] == step {
      var rest := Diff(d.path[1..], d.reason);
      assert d == Under(step, rest);
      if rest in ds {
        var i :| 0 <= i < |ds| && ds[i] == rest;
        assert AllUnder(step, ds)[i] == d;
      }
      if d in AllUnder(step, ds) {
        var i :| 0 <= i < |ds| && AllUnder(step, ds)[i] == d;
        assert ds[i].path == d.path[1..];
        assert ds[i] == rest;
      }
    }
  }

  lemma {:induction false} UnderNoRepeats(step: Step, ds: seq<Diff>)
    requires NoRepeats(ds)
    ensures NoRepeats(AllUnder(step, ds))
  {
    forall i, j | 0 <= i < j < |ds| ensures Under(step, ds[i]) != Under(step, ds[j]) {
      assert Under(step, ds[i]).path[1..] == ds[i].path && Under(step, ds[j]).path[1..] == ds[j].path;
    }
  }

  /** Appending two duplicate-free reports without common entries. */
  lemma {:induction false} Join(ds: seq<Diff>, es: seq<Diff>)
    requires NoRepeats(ds) && NoRepeats(es) && forall d :: d in es ==> d !in ds
    ensures NoRepeats(ds + es)
  {
    forall i, j | 0 <= i < j < |ds + es| ensures (ds + es)[i] != (ds + es)[j] {
      if i < |ds| <= j {
        assert (ds + es)[j] in es;
      }
    }
  }

  // ------------------------------------------------------------------------ comparing

  /** Which keys the loop over the union of keys has handled. */
  ghost predicate AboutKey(d: Diff, k: string) {
    if d.path == [] then d.reason == ExtraKey(k) || d.reason == MissingKey(k) else d.path[0] == Key(k)
  }

  method CompareKey(expected: Json, actual: Json, key: string) returns (diffs: seq<Diff>)
    requires expected.Dict? && actual.Dict? && (key in expected.fields || key in actual.fields)
    ensures NoRepeats(diffs) && forall d :: d in diffs <==> AboutKey(d, key) && IsDiff(expected, actual, d)
    decreases expected, 0
  {
    if key !in expected.fields {
      diffs := [Diff([], ExtraKey(key))];
    } else if key !in actual.fields {
      diffs := [Diff([], MissingKey(key))];
    } else {
      var nested := CompareResponses(expected.fields[key], actual.fields[key]);
      diffs := AllUnder(Key(key), nested);
      UnderNoRepeats(Key(key), nested);
      forall d ensures d in diffs <==> AboutKey(d, key) && IsDiff(expected, actual, d) {
        UnderIsDiff(expected, actual, Key(key), nested, d);
      }
    }
  }

  method CompareDicts(expected: Json, actual: Json) returns (diffs: seq<Diff>)
    requires expected.Dict? && actual.Dict?
    ensures Report(expected, actual, diffs)
    decreases expected, 1
  {
    diffs := [];
    var keys := expected.fields.Keys + actual.fields.Keys;
    var rest := keys;
    while rest != {}
      invariant rest <= keys && NoRepeats(diffs)
      invariant forall d :: d in diffs <==> IsDiff(expected, actual, d) && exists k :: k in keys - rest && AboutKey(d, k)
      decreases rest
    {
      var key :| key in rest;
      var found := CompareKey(expected, actual, key);
      Join(diffs, found);
      diffs := diffs + found;
      rest := rest - {key};
    }
    forall d | IsDiff(expected, actual, d) ensures exists k :: k in keys && AboutKey(d, k) {
      var k := if d.path != [] then d.path[0].key else d.reason.key;
      assert k in keys && AboutKey(d, k);
    }
  }

  method CompareLists(expected: Json, actual: Json) returns (diffs: seq<Diff>)
    requires expected.List? && actual.List?
    ensures Report(expected, actual, diffs)
    decreases expected, 1
  {
    var m, n := |expected.items|, |actual.items|;
    diffs := [];
    if m != n {
      diffs := [Diff([], LengthMismatch(m, n))];
    }
    var common := if m < n then m else n;
    for i := 0 to common
      invariant NoRepeats(diffs)
      invariant forall d :: d in diffs <==> IsDiff(expected, actual, d) && (d.path == [] || d.path[0].i < i)
    {
      var nested := CompareResponses(expected.items[i], actual.items[i]);
      var found := AllUnder(Index(i), nested);
      UnderNoRepeats(Index(i), nested);
      forall d ensures d in found <==> d.path != [] && d.path[0] == Index(i) && IsDiff(expected, actual, d) {
        UnderIsDiff(expected, actual, Index(i), nested, d);
      }
      Join(diffs, found);
      diffs := diffs + found;
    }
  }

  /** The comparison reports every place where the trees differ, once, and nothing else. */
  method CompareResponses(expected: Json, actual: Json) returns (diffs: seq<Diff>)
    ensures Report(expected, actual, diffs)
    ensures diffs == [] <==> expected == actual && NaNFree(expected)
    decreases expected, 2
  {
    if TypeOf(expected) != TypeOf(actual) {
      diffs := [Diff([], TypeMismatch(TypeOf(expected), TypeOf(actual)))];
    } else if expected.Dict? {
      diffs := CompareDicts(expected, actual);
    } else if expected.List? {
      diffs := CompareLists(expected, actual);
    } else if LeafDiffers(expected, actual) {
      diffs := [Diff([], ValueMismatch(expected, actual))];
    } else {
      diffs := [];
    }
    EmptyExactly(expected, actual, diffs);
  }

  // ------------------------------------------------------------ soundness, completeness

  predicate NaNFree(j: Json) {
    match j
    case Float(f) => f != NaN
    case List(xs) => forall i :: 0 <= i < |xs| ==> NaNFree(xs[i])
    case Dict(m) => forall k :: k in m ==> NaNFree(m[k])
    case _ => true
  }

  ghost predicate Differ(e: Json, a: Json) {
    exists d :: IsDiff(e, a, d)
  }

  lemma {:induction false} DiffersBelow(e: Json, a: Json, step: Step)
    requires Common(e, a, step) && Differ(Child(e, step), Child(a, step))
    ensures Differ(e, a)
  {
    var d :| IsDiff(Child(e, step), Child(a, step), d);
    var up := Under(step, d);
    assert up.path[1..] == d.path && Diff(up.path[1..], up.reason) == d;
    assert IsDiff(e, a, up);
  }

  /** Unequal trees, and trees with a NaN, differ somewhere. */
  lemma {:induction false} UnequalDiffer(e: Json, a: Json)
    requires e != a || !NaNFree(e)
    ensures Differ(e, a)
    decreases e, 1
  {
    if TypeOf(e) != TypeOf(a) {
      assert IsDiff(e, a, Diff([], TypeMismatch(TypeOf(e), TypeOf(a))));
    } else if e.Dict? {
      UnequalDicts(e, a);
    } else if e.List? {
      UnequalLists(e, a);
    } else {
      assert IsDiff(e, a, Diff([], ValueMismatch(e, a)));
    }
  }

  lemma {:induction false} UnequalDicts(e: Json, a: Json)
    requires e.Dict? && a.Dict? && (e != a || !NaNFree(e))
    ensures Differ(e, a)
    decreases e, 0
  {
    if k :| k in e.fields && k !in a.fields {
      assert IsDiff(e, a, Diff([], MissingKey(k)));
    } else if k :| k in a.fields && k !in e.fields {
      assert IsDiff(e, a, Diff([], ExtraKey(k)));
    } else {
      assert e.fields.Keys == a.fields.Keys;
      var k :| k in e.fields && (e.fields[k] != a.fields[k] || !NaNFree(e.fields[k]));
      UnequalDiffer(e.fields[k], a.fields[k]);
      DiffersBelow(e, a, Key(k));
    }
  }

  lemma {:induction false} UnequalLists(e: Json, a: Json)
    requires e.List? && a.List? && (e != a || !NaNFree(e))
    ensures Differ(e, a)
    decreases e, 0
  {
    if |e.items| != |a.items| {
      assert IsDiff(e, a, Diff([], LengthMismatch(|e.items|, |a.items|)));
    } else {
      var i :| 0 <= i < |e.items| && (e.items[i] != a.items[i] || !NaNFree(e.items[i]));
      UnequalDiffer(e.items[i], a.items[i]);
      DiffersBelow(e, a, Index(i));
    }
  }

  lemma {:induction false} EqualDoNotDiffer(e: Json, d: Diff)
    requires NaNFree(e)
    ensures !IsDiff(e, e, d)
    decreases |d.path|
  {
    if d.path != [] && Common(e, e, d.path[0]) {
      EqualDoNotDiffer(Child(e, d.path[0]), Diff(d.path[1..], d.reason));
    }
  }

  /** A report is empty exactly when the trees are equal and hold no NaN. */
  lemma {:induction false} EmptyExactly(e: Json, a: Json, ds: seq<Diff>)
    requires Report(e, a, ds)
    ensures ds == [] <==> e == a && NaNFree(e)
  {
    if e == a && NaNFree(e) {
      if ds != [] {
        EqualDoNotDiffer(e, ds[0]);
      }
    } else {
      UnequalDiffer(e, a);
      var d :| IsDiff(e, a, d);
      assert d in ds;
    }
  }

  // ---------------------------------------------------------------------- normalising

  function Normalise(j: Json, ignore: set<string>): Json {
    match j
    case List(xs) => List(seq(|xs|, i requires 0 <= i < |xs| => Normalise(xs[i], ignore)))
    case Dict(m) => Dict(map k | k in m && k !in ignore :: Normalise(m[k], ignore))
    case _ => j
  }

  /** Equality up to ignored keys, at any depth. */
  ghost predicate EqualUpTo(e: Json, a: Json, ignore: set<string>) {
    match e
    case List(xs) => a.List? && |a.items| == |xs| && forall i :: 0 <= i < |xs| ==> EqualUpTo(xs[i], a.items[i], ignore)
    case Dict(m) =>
      && a.Dict?
      && (forall k :: k !in ignore ==> (k in m <==> k in a.fields))
      && (forall k :: k in m && k in a.fields && k !in ignore ==> EqualUpTo(m[k], a.fields[k], ignore))
    case _ => e == a
  }

  /** No NaN outside ignored keys. */
  predicate NaNFreeUpTo(j: Json, ignore: set<string>) {
    match j
    case Float(f) => f != NaN
    case List(xs) => forall i :: 0 <= i < |xs| ==> NaNFreeUpTo(xs[i], ignore)
    case Dict(m) => forall k :: k in m && k !in ignore ==> NaNFreeUpTo(m[k], ignore)
    case _ => true
  }

  lemma {:induction false} NormaliseTwice(j: Json, A: set<string>, B: set<string>)
    ensures Normalise(Normalise(j, A), B) == Normalise(j, A + B)
  {
    match j {
      case List(xs) =>
        forall i | 0 <= i < |xs| ensures Normalise(Normalise(xs[i], A), B) == Normalise(xs[i], A + B) {
          NormaliseTwice(xs[i], A, B);
        }
      case Dict(m) =>
        forall k | k in m ensures Normalise(Normalise(m[k], A), B) == Normalise(m[k], A + B) {
          NormaliseTwice(m[k], A, B);
        }
      case _ =>
    }
  }

  lemma {:induction false} NormaliseIdempotent(j: Json, A: set<string>)
    ensures Normalise(Normalise(j, A), A) == Normalise(j, A)
  {
    NormaliseTwice(j, A, A);
    assert A + A == A;
  }

  lemma {:induction false} NormaliseEqualExactly(e: Json, a: Json, A: set<string>)
    ensures Normalise(e, A) == Normalise(a, A) <==> EqualUpTo(e, a, A)
    decreases e, 1
  {
    if e.List? && a.List? {
      NormaliseEqualLists(e, a, A);
    } else if e.Dict? && a.Dict? {
      NormaliseEqualDicts(e, a, A);
    }
  }

  lemma {:induction false} NormaliseEqualLists(e: Json, a: Json, A: set<string>)
    requires e.List? && a.List?
    ensures Normalise(e, A) == Normalise(a, A) <==> EqualUpTo(e, a, A)
    decreases e, 0
  {
    var xs, ys := e.items, a.items;
    var ne, na := Normalise(e, A).items, Normalise(a, A).items;
    assert |ne| == |xs| && |na| == |ys|;
    if |xs| == |ys| {
      forall i | 0 <= i < |xs| ensures ne[i] == na[i] <==> EqualUpTo(xs[i], ys[i], A) {
        NormaliseEqualExactly(xs[i], ys[i], A);
      }
    }
  }

  lemma {:induction false} NormaliseEqualDicts(e: Json, a: Json, A: set<string>)
    requires e.Dict? && a.Dict?
    ensures Normalise(e, A) == Normalise(a, A) <==> EqualUpTo(e, a, A)
    decreases e, 0
  {
    var m, n := e.fields, a.fields;
    forall k | k in m && k in n ensures Normalise(m[k], A) == Normalise(n[k], A) <==> EqualUpTo(m[k], n[k], A) {
      NormaliseEqualExactly(m[k], n[k], A);
    }
    var nm, nn := Normalise(e, A).fields, Normalise(a, A).fields;
    assert forall k :: k in nm <==> k in m && k !in A;
    assert forall k :: k in nn <==> k in n && k !in A;
    if nm == nn {
      forall k | k !in A ensures k in m <==> k in n { assert k in nm <==> k in nn; }
      forall k | k in m && k in n && k !in A ensures EqualUpTo(m[k], n[k], A) { assert nm[k] == nn[k]; }
    }
  }

  lemma {:induction false} NormaliseNaNFree(j: Json, A: set<string>)
    ensures NaNFree(Normalise(j, A)) <==> NaNFreeUpTo(j, A)
  {
    match j {
      case List(xs) =>
        forall i | 0 <= i < |xs| ensures NaNFree(Normalise(xs[i], A)) <==> NaNFreeUpTo(xs[i], A) {
          NormaliseNaNFree(xs[i], A);
        }
        assert forall i :: 0 <= i < |xs| ==> Normalise(j, A).items[i] == Normalise(xs[i], A);
      case Dict(m) =>
        forall k | k in m ensures NaNFree(Normalise(m[k], A)) <==> NaNFreeUpTo(m[k], A) {
          NormaliseNaNFree(m[k], A);
        }
        assert forall k :: k in Normalise(j, A).fields <==> k in m && k !in A;
      case _ =>
    }
  }

  /** Normalising both responses and comparing them: no difference is reported exactly when the
      responses are equal up to the ignored keys and hold no NaN outside them. */
  method CompareNormalised(expected: Json, actual: Json, ignore: set<string>) returns (diffs: seq<Diff>)
    ensures diffs == [] <==> EqualUpTo(expected, actual, ignore) && NaNFreeUpTo(expected, ignore)
    ensures Report(Normalise(expected, ignore), Normalise(actual, ignore), diffs)
  {
    NormaliseEqualExactly(expected, actual, ignore);
    NormaliseNaNFree(expected, ignore);
    diffs := CompareResponses(Normalise(expected, ignore), Normalise(actual, ignore));
  }
}
