/**
 * The response envelope of the API server (rest-api-v1-main/index.js).
 *
 * A middleware replaces `res.json` so that an object payload `data` is sent as
 * the object literal `{ status: data.status, creator: <configured creator>, ...data }`.
 * JavaScript values are modelled by `Value`; an object is the list of its own
 * enumerable properties in the order [[OwnPropertyKeys]] reports them
 * (section 10.1.11.1 of ECMA-262): array-index keys first, in ascending numeric
 * order, then the other string keys in the order they were created.
 */
module Envelope {
  import opened Wrappers
  import opened Decimal

  datatype Value =
    | Undefined
    | Null
    | Bool(b: bool)
    | Num(n: int)
    | Str(s: string)
    | Arr(elems: seq<Value>)
    | Obj(props: seq<(string, Value)>)

  /** The own enumerable properties of an object, in [[OwnPropertyKeys]] order. */
  type Props = seq<(string, Value)>

  /** The `typeof` operator. */
  function TypeOf(v: Value): string {
    match v
    case Undefined => "undefined"
    case Null => "object"
    case Bool(_) => "boolean"
    case Num(_) => "number"
    case Str(_) => "string"
    case Arr(_) => "object"
    case Obj(_) => "object"
  }

  /** ToBoolean: `undefined`, `null`, `false`, `0` and `""` are falsy. */
  predicate Truthy(v: Value) {
    match v
    case Undefined => false
    case Null => false
    case Bool(b) => b
    case Num(n) => n != 0
    case Str(s) => s != ""
    case Arr(_) => true
    case Obj(_) => true
  }

  // ---------------------------------------------------------------------------
  // Property lists

  function Keys(o: Props): seq<string> {
    seq(|o|, i requires 0 <= i < |o| => o[i].0)
  }

  function KeySet(o: Props): set<string> {
    set i | 0 <= i < |o| :: o[i].0
  }

  predicate Distinct(ks: seq<string>) {
    forall i, j :: 0 <= i < j < |ks| ==> ks[i] != ks[j]
  }

  /** Every array-index key precedes every other key, and array-index keys ascend. */
  predicate IndicesFirstAscending(ks: seq<string>) {
    forall i, j :: 0 <= i < j < |ks| && IsArrayIndex(ks[j]) ==>
      IsArrayIndex(ks[i]) && IndexValue(ks[i]) < IndexValue(ks[j])
  }

  /** The shape of every ordinary object's own-key list. */
  predicate WellFormed(o: Props) {
    Distinct(Keys(o)) && IndicesFirstAscending(Keys(o))
  }

  /** A value as JavaScript can produce it: objects are well formed, arrays fit the index range. */
  predicate ValidValue(v: Value) {
    match v
    case Obj(props) => WellFormed(props)
    case Arr(elems) => |elems| <= MaxArrayIndex + 1
    case _ => true
  }

  /** The keys that are not array indices, in order. */
  function NamedKeys(ks: seq<string>): seq<string> {
    if ks == [] then [] else (if IsArrayIndex(ks[0]) then [] else [ks[0]]) + NamedKeys(ks[1..])
  }

  /** `ks` without the keys in `drop`. */
  function FilterOut(ks: seq<string>, drop: set<string>): seq<string> {
    if ks == [] then [] else (if ks[0] in drop then [] else [ks[0]]) + FilterOut(ks[1..], drop)
  }

  /** Property access `o[k]` on an object's own properties; `undefined` when absent. */
  function Get(o: Props, k: string): Value {
    if o == [] then Undefined else if o[0].0 == k then o[0].1 else Get(o[1..], k)
  }

  /** Give the existing key `k` the value `v`, keeping its position. */
  function Update(o: Props, k: string, v: Value): Props {
    if o == [] then []
    else if o[0].0 == k then [(k, v)] + o[1..]
    else [o[0]] + Update(o[1..], k, v)
  }

  /** Add the new array-index key `k` at its place in the ascending index prefix. */
  function InsertIndex(o: Props, k: string, v: Value): Props
    requires IsArrayIndex(k)
  {
    if o == [] || !IsArrayIndex(o[0].0) || IndexValue(k) < IndexValue(o[0].0) then [(k, v)] + o
    else [o[0]] + InsertIndex(o[1..], k, v)
  }

  /** CreateDataPropertyOrThrow on an ordinary extensible object. */
  function Set(o: Props, k: string, v: Value): Props {
    if k in Keys(o) then Update(o, k, v)
    else if IsArrayIndex(k) then InsertIndex(o, k, v)
    else o + [(k, v)]
  }

  /** CopyDataProperties (section 7.3.25 of ECMA-262): the object spread `...src` into `t`. */
  function CopyInto(t: Props, src: Props): Props
    decreases |src|
  {
    if src == [] then t else CopyInto(Set(t, src[0].0, src[0].1), src[1..])
  }

  // ---------------------------------------------------------------------------
  // Facts about property lists

  lemma KeysCons(p: (string, Value), o: Props)
    ensures Keys([p] + o) == [p.0] + Keys(o)
  {
  }

  lemma KeySetIsKeys(o: Props)
    ensures forall k :: k in KeySet(o) <==> k in Keys(o)
  {
    forall k | k in Keys(o) ensures k in KeySet(o) {
      var i :| 0 <= i < |o| && Keys(o)[i] == k;
      assert o[i].0 == k;
    }
    forall k | k in KeySet(o) ensures k in Keys(o) {
      var i :| 0 <= i < |o| && o[i].0 == k;
      assert Keys(o)[i] == k;
    }
  }

  lemma {:induction false} NamedKeysAppend(a: seq<string>, b: seq<string>)
    ensures NamedKeys(a + b) == NamedKeys(a) + NamedKeys(b)
  {
    if a == [] {
      assert a + b == b;
    } else {
      assert (a + b)[0] == a[0];
      assert (a + b)[1..] == a[1..] + b;
      NamedKeysAppend(a[1..], b);
    }
  }

  lemma {:induction false} NamedKeysOfNoIndex(ks: seq<string>)
    requires forall i :: 0 <= i < |ks| ==> !IsArrayIndex(ks[i])
    ensures NamedKeys(ks) == ks
  {
    if ks != [] {
      NamedKeysOfNoIndex(ks[1..]);
    }
  }

  lemma {:induction false} NamedKeysOfIndices(ks: seq<string>)
    requires forall i :: 0 <= i < |ks| ==> IsArrayIndex(ks[i])
    ensures NamedKeys(ks) == []
  {
    if ks != [] {
      NamedKeysOfIndices(ks[1..]);
    }
  }

  lemma {:induction false} NamedKeysMembers(ks: seq<string>)
    ensures forall k :: k in NamedKeys(ks) <==> k in ks && !IsArrayIndex(k)
  {
    if ks != [] {
      NamedKeysMembers(ks[1..]);
      assert ks == [ks[0]] + ks[1..];
    }
  }

  lemma {:induction false} FilterOutMembers(ks: seq<string>, drop: set<string>)
    ensures forall k :: k in FilterOut(ks, drop) <==> k in ks && k !in drop
  {
    if ks != [] {
      FilterOutMembers(ks[1..], drop);
      assert ks == [ks[0]] + ks[1..];
    }
  }

  /** Dropping a key that does not occur changes nothing. */
  lemma {:induction false} FilterOutAbsent(ks: seq<string>, drop: set<string>, x: string)
    requires x !in ks
    ensures FilterOut(ks, drop + {x}) == FilterOut(ks, drop)
  {
    if ks != [] {
      FilterOutAbsent(ks[1..], drop, x);
    }
  }

  lemma {:induction false} FilterOutTwice(ks: seq<string>, drop: set<string>)
    ensures FilterOut(FilterOut(ks, drop), drop) == FilterOut(ks, drop)
  {
    if ks != [] {
      FilterOutTwice(ks[1..], drop);
      var f := FilterOut(ks[1..], drop);
      if ks[0] !in drop {
        assert FilterOut(ks, drop) == [ks[0]] + f;
        assert ([ks[0]] + f)[1..] == f;
      } else {
        assert FilterOut(ks, drop) == f;
      }
    }
  }

  lemma {:induction false} FilterOutNone(ks: seq<string>, drop: set<string>)
    requires forall i :: 0 <= i < |ks| ==> ks[i] !in drop
    ensures FilterOut(ks, drop) == ks
  {
    if ks != [] {
      FilterOutNone(ks[1..], drop);
    }
  }

  lemma {:induction false} GetAbsent(o: Props, k: string)
    requires k !in Keys(o)
    ensures Get(o, k) == Undefined
  {
    if o != [] {
      assert Keys(o)[0] == o[0].0;
      assert Keys(o[1..]) == Keys(o)[1..];
      GetAbsent(o[1..], k);
    }
  }

  lemma {:induction false} GetAt(o: Props, i: nat)
    requires i < |o| && Distinct(Keys(o))
    ensures Get(o, o[i].0) == o[i].1
  {
    if i > 0 {
      assert Keys(o[1..]) == Keys(o)[1..];
      assert Keys(o)[0] != Keys(o)[i];
      GetAt(o[1..], i - 1);
    }
  }

  lemma SuffixWellFormed(o: Props)
    requires WellFormed(o) && o != []
    ensures WellFormed(o[1..])
  {
    assert Keys(o[1..]) == Keys(o)[1..];
  }

  lemma {:induction false} UpdateFacts(o: Props, k: string, v: Value)
    requires k in Keys(o)
    ensures Keys(Update(o, k, v)) == Keys(o)
    ensures Distinct(Keys(o)) ==> Get(Update(o, k, v), k) == v
    ensures forall x :: x != k ==> Get(Update(o, k, v), x) == Get(o, x)
  {
    if o[0].0 != k {
      assert Keys(o[1..]) == Keys(o)[1..];
      UpdateFacts(o[1..], k, v);
      KeysCons(o[0], Update(o[1..], k, v));
      KeysCons(o[0], o[1..]);
    } else {
      KeysCons((k, v), o[1..]);
      KeysCons(o[0], o[1..]);
    }
  }

  lemma {:induction false} InsertIndexContents(o: Props, k: string, v: Value)
    requires IsArrayIndex(k)
    ensures forall x :: x in Keys(InsertIndex(o, k, v)) <==> x == k || x in Keys(o)
    ensures NamedKeys(Keys(InsertIndex(o, k, v))) == NamedKeys(Keys(o))
    ensures k !in Keys(o) ==> forall x :: Get(InsertIndex(o, k, v), x) == if x == k then v else Get(o, x)
    decreases |o|
  {
    KeysCons((k, v), o);
    if o != [] {
      KeysCons(o[0], o[1..]);
      assert o == [o[0]] + o[1..];
    }
    if o == [] || !IsArrayIndex(o[0].0) || IndexValue(k) < IndexValue(o[0].0) {
    } else {
      var rest := InsertIndex(o[1..], k, v);
      InsertIndexContents(o[1..], k, v);
      KeysCons(o[0], rest);
    }
  }

  /** Inserting in front: `k` is smaller than every index key of `o`. */
  lemma InsertFrontWellFormed(o: Props, k: string, v: Value)
    requires WellFormed(o) && IsArrayIndex(k) && k !in Keys(o)
    requires o == [] || !IsArrayIndex(o[0].0) || IndexValue(k) < IndexValue(o[0].0)
    ensures WellFormed([(k, v)] + o)
  {
    KeysCons((k, v), o);
    var ks := Keys([(k, v)] + o);
    forall i, j | 0 <= i < j < |ks| && IsArrayIndex(ks[j])
      ensures IsArrayIndex(ks[i]) && IndexValue(ks[i]) < IndexValue(ks[j])
    {
      if i > 0 {
        assert ks[i] == Keys(o)[i - 1] && ks[j] == Keys(o)[j - 1];
      } else if j > 1 {
        assert ks[j] == Keys(o)[j - 1];
        assert IsArrayIndex(Keys(o)[0]) && IndexValue(o[0].0) < IndexValue(ks[j]);
      }
    }
  }

  /** Inserting behind the head: the head is an index key smaller than `k`. */
  lemma InsertBehindWellFormed(o: Props, k: string, rest: Props)
    requires WellFormed(o) && o != [] && IsArrayIndex(k) && IsArrayIndex(o[0].0)
    requires IndexValue(o[0].0) < IndexValue(k)
    requires WellFormed(rest)
    requires forall x :: x in Keys(rest) <==> x == k || x in Keys(o[1..])
    ensures WellFormed([o[0]] + rest)
  {
    KeysCons(o[0], rest);
    assert Keys(o[1..]) == Keys(o)[1..];
    var ks := Keys([o[0]] + rest);
    assert ks[0] == o[0].0 == Keys(o)[0];
    forall i, j | 0 <= i < j < |ks| && IsArrayIndex(ks[j])
      ensures IsArrayIndex(ks[i]) && IndexValue(ks[i]) < IndexValue(ks[j])
    {
      if i == 0 {
        assert ks[j] == Keys(rest)[j - 1];
        assert ks[j] in Keys(rest);
        if ks[j] != k {
          assert ks[j] in Keys(o[1..]);
          var m :| 0 <= m < |o[1..]| && Keys(o[1..])[m] == ks[j];
          assert Keys(o)[m + 1] == ks[j];
        }
      } else {
        assert ks[i] == Keys(rest)[i - 1] && ks[j] == Keys(rest)[j - 1];
      }
    }
    forall i, j | 0 <= i < j < |ks| ensures ks[i] != ks[j] {
      if i == 0 {
        assert ks[j] == Keys(rest)[j - 1];
        assert ks[j] in Keys(rest);
        if ks[j] != k {
          assert ks[j] in Keys(o[1..]);
          var m :| 0 <= m < |o[1..]| && Keys(o[1..])[m] == ks[j];
          assert Keys(o)[m + 1] == ks[j];
        }
      } else {
        assert ks[i] == Keys(rest)[i - 1] && ks[j] == Keys(rest)[j - 1];
      }
    }
  }

  lemma {:induction false} InsertIndexWellFormed(o: Props, k: string, v: Value)
    requires WellFormed(o) && IsArrayIndex(k) && k !in Keys(o)
    ensures WellFormed(InsertIndex(o, k, v))
    decreases |o|
  {
    if o == [] || !IsArrayIndex(o[0].0) || IndexValue(k) < IndexValue(o[0].0) {
      InsertFrontWellFormed(o, k, v);
    } else {
      assert Keys(o)[0] == o[0].0;
      if IndexValue(k) == IndexValue(o[0].0) {
        IndexValueInjective(k, o[0].0);
      }
      SuffixWellFormed(o);
      assert Keys(o[1..]) == Keys(o)[1..];
      InsertIndexWellFormed(o[1..], k, v);
      InsertIndexContents(o[1..], k, v);
      InsertBehindWellFormed(o, k, InsertIndex(o[1..], k, v));
    }
  }

  lemma {:induction false} GetAppendNew(o: Props, k: string, v: Value)
    requires k !in Keys(o)
    ensures forall x :: Get(o + [(k, v)], x) == if x == k then v else Get(o, x)
  {
    if o == [] {
      assert o + [(k, v)] == [(k, v)];
    } else {
      assert Keys(o)[0] == o[0].0;
      assert Keys(o[1..]) == Keys(o)[1..];
      assert (o + [(k, v)])[1..] == o[1..] + [(k, v)];
      GetAppendNew(o[1..], k, v);
    }
  }

  /** What one CreateDataPropertyOrThrow does to an object's keys, values and order. */
  lemma SetFacts(o: Props, k: string, v: Value)
    requires WellFormed(o)
    ensures WellFormed(Set(o, k, v))
    ensures forall x :: x in Keys(Set(o, k, v)) <==> x == k || x in Keys(o)
    ensures forall x :: Get(Set(o, k, v), x) == if x == k then v else Get(o, x)
    ensures NamedKeys(Keys(Set(o, k, v))) ==
      if IsArrayIndex(k) || k in Keys(o) then NamedKeys(Keys(o)) else NamedKeys(Keys(o)) + [k]
  {
    if k in Keys(o) {
      UpdateFacts(o, k, v);
    } else if IsArrayIndex(k) {
      InsertIndexContents(o, k, v);
      InsertIndexWellFormed(o, k, v);
    } else {
      var r := o + [(k, v)];
      assert Keys(r) == Keys(o) + [k];
      NamedKeysAppend(Keys(o), [k]);
      GetAppendNew(o, k, v);
      assert Distinct(Keys(r)) by {
        forall i, j | 0 <= i < j < |r| ensures Keys(r)[i] != Keys(r)[j] {
          if j == |o| {
            assert Keys(r)[i] == Keys(o)[i];
          }
        }
      }
    }
  }

  /** The non-index key order and key set after one CreateDataPropertyOrThrow. */
  lemma SetOrder(o: Props, k: string, v: Value)
    requires WellFormed(o)
    ensures WellFormed(Set(o, k, v))
    ensures KeySet(Set(o, k, v)) == KeySet(o) + {k}
    ensures NamedKeys(Keys(Set(o, k, v))) ==
      NamedKeys(Keys(o)) + (if IsArrayIndex(k) || k in KeySet(o) then [] else [k])
  {
    SetFacts(o, k, v);
    KeySetIsKeys(o);
    KeySetIsKeys(Set(o, k, v));
    if IsArrayIndex(k) || k in Keys(o) {
      assert NamedKeys(Keys(o)) + [] == NamedKeys(Keys(o));
    }
  }

  lemma GetHead(src: Props)
    requires src != []
    ensures forall x :: Get(src, x) == if x == src[0].0 then src[0].1 else Get(src[1..], x)
  {
  }

  lemma HeadNotInTail(src: Props)
    requires src != [] && Distinct(Keys(src))
    ensures src[0].0 !in Keys(src[1..]) && Distinct(Keys(src[1..]))
    ensures Keys(src) == [src[0].0] + Keys(src[1..])
  {
    assert Keys(src[1..]) == Keys(src)[1..];
    forall m | 0 <= m < |src| - 1 ensures Keys(src[1..])[m] != src[0].0 {
      assert Keys(src)[m + 1] == Keys(src[1..])[m];
      assert Keys(src)[0] == src[0].0;
    }
  }

  /** What the spread `...src` into `t` does to the keys and values. */
  lemma {:induction false} CopyIntoContents(t: Props, src: Props)
    requires WellFormed(t) && Distinct(Keys(src))
    ensures WellFormed(CopyInto(t, src))
    ensures forall x :: x in Keys(CopyInto(t, src)) <==> x in Keys(t) || x in Keys(src)
    ensures forall x :: Get(CopyInto(t, src), x) == if x in Keys(src) then Get(src, x) else Get(t, x)
    decreases |src|
  {
    if src != [] {
      HeadNotInTail(src);
      SetFacts(t, src[0].0, src[0].1);
      CopyIntoContents(Set(t, src[0].0, src[0].1), src[1..]);
      GetHead(src);
    }
  }

  lemma SeqAssoc<T>(a: seq<T>, b: seq<T>, c: seq<T>)
    ensures (a + b) + c == a + (b + c)
  {
  }

  lemma FilterStep(k0: string, nk: seq<string>, drop: set<string>)
    requires k0 !in nk
    ensures FilterOut((if IsArrayIndex(k0) then [] else [k0]) + nk, drop) ==
      (if IsArrayIndex(k0) || k0 in drop then [] else [k0]) + FilterOut(nk, drop + {k0})
  {
    FilterOutAbsent(nk, drop, k0);
    if IsArrayIndex(k0) {
      assert [] + nk == nk;
    } else {
      assert ([k0] + nk)[1..] == nk;
      assert FilterOut([k0] + nk, drop) == (if k0 in drop then [] else [k0]) + FilterOut(nk, drop);
    }
  }

  lemma NamedKeysCons(k0: string, ks: seq<string>)
    ensures NamedKeys([k0] + ks) == (if IsArrayIndex(k0) then [] else [k0]) + NamedKeys(ks)
  {
    assert ([k0] + ks)[1..] == ks;
  }

  /** The spread keeps `t`'s non-index keys in place and appends the new ones of `src` in order. */
  lemma {:induction false} CopyIntoOrder(t: Props, src: Props)
    requires WellFormed(t) && Distinct(Keys(src))
    ensures NamedKeys(Keys(CopyInto(t, src))) ==
      NamedKeys(Keys(t)) + FilterOut(NamedKeys(Keys(src)), KeySet(t))
    decreases |src|
  {
    if src == [] {
      assert NamedKeys(Keys(src)) == [];
      assert NamedKeys(Keys(t)) + [] == NamedKeys(Keys(t));
    } else {
      var k0, v0 := src[0].0, src[0].1;
      var t' := Set(t, k0, v0);
      var src' := src[1..];
      HeadNotInTail(src);
      SetOrder(t, k0, v0);
      CopyIntoOrder(t', src');
      NamedKeysMembers(Keys(src'));
      NamedKeysCons(k0, Keys(src'));
      FilterStep(k0, NamedKeys(Keys(src')), KeySet(t));
      var extra := if IsArrayIndex(k0) || k0 in KeySet(t) then [] else [k0];
      assert NamedKeys(Keys(t')) == NamedKeys(Keys(t)) + extra;
      assert CopyInto(t, src) == CopyInto(t', src');
      var f := FilterOut(NamedKeys(Keys(src')), KeySet(t'));
      assert NamedKeys(Keys(src)) == (if IsArrayIndex(k0) then [] else [k0]) + NamedKeys(Keys(src'));
      assert FilterOut(NamedKeys(Keys(src)), KeySet(t)) == extra + f;
      assert NamedKeys(Keys(CopyInto(t, src))) == (NamedKeys(Keys(t)) + extra) + f;
      SeqAssoc(NamedKeys(Keys(t)), extra, f);
    }
  }

  /** The first key of a well-formed object is its least index key, or it has no index key at all. */
  lemma FirstKeyLeast(o: Props)
    requires WellFormed(o) && o != []
    ensures forall k :: k in Keys(o) && IsArrayIndex(k) ==>
              IsArrayIndex(o[0].0) && IndexValue(o[0].0) <= IndexValue(k)
    ensures !IsArrayIndex(o[0].0) ==> NamedKeys(Keys(o)) != [] && NamedKeys(Keys(o))[0] == o[0].0
  {
    assert Keys(o)[0] == o[0].0;
    forall k | k in Keys(o) && IsArrayIndex(k)
      ensures IsArrayIndex(o[0].0) && IndexValue(o[0].0) <= IndexValue(k)
    {
      var i :| 0 <= i < |o| && Keys(o)[i] == k;
    }
    HeadNotInTail(o);
    NamedKeysCons(o[0].0, Keys(o[1..]));
  }

  /** Two well-formed objects with the same keys and non-index key order start with the same key. */
  lemma SameFirstKey(a: Props, b: Props)
    requires WellFormed(a) && WellFormed(b) && a != [] && b != []
    requires forall k :: k in Keys(a) <==> k in Keys(b)
    requires NamedKeys(Keys(a)) == NamedKeys(Keys(b))
    ensures a[0].0 == b[0].0
  {
    assert Keys(a)[0] == a[0].0 && a[0].0 in Keys(a);
    assert Keys(b)[0] == b[0].0 && b[0].0 in Keys(b);
    FirstKeyLeast(a);
    FirstKeyLeast(b);
    if IsArrayIndex(a[0].0) || IsArrayIndex(b[0].0) {
      IndexValueInjective(a[0].0, b[0].0);
    }
  }

  /** Removing the same first entry from two such objects keeps them alike. */
  lemma TailsAlike(a: Props, b: Props)
    requires WellFormed(a) && WellFormed(b) && a != [] && b != [] && a[0].0 == b[0].0
    requires forall k :: k in Keys(a) <==> k in Keys(b)
    requires NamedKeys(Keys(a)) == NamedKeys(Keys(b))
    requires forall k :: Get(a, k) == Get(b, k)
    ensures WellFormed(a[1..]) && WellFormed(b[1..])
    ensures forall k :: k in Keys(a[1..]) <==> k in Keys(b[1..])
    ensures NamedKeys(Keys(a[1..])) == NamedKeys(Keys(b[1..]))
    ensures forall k :: Get(a[1..], k) == Get(b[1..], k)
  {
    HeadNotInTail(a);
    HeadNotInTail(b);
    SuffixWellFormed(a);
    SuffixWellFormed(b);
    GetAbsent(a[1..], a[0].0);
    GetAbsent(b[1..], b[0].0);
    GetHead(a);
    GetHead(b);
    NamedKeysCons(a[0].0, Keys(a[1..]));
    NamedKeysCons(b[0].0, Keys(b[1..]));
    if IsArrayIndex(a[0].0) {
      assert [] + NamedKeys(Keys(a[1..])) == NamedKeys(Keys(a[1..]));
      assert [] + NamedKeys(Keys(b[1..])) == NamedKeys(Keys(b[1..]));
    } else {
      assert ([a[0].0] + NamedKeys(Keys(a[1..])))[1..] == NamedKeys(Keys(a[1..]));
      assert ([b[0].0] + NamedKeys(Keys(b[1..])))[1..] == NamedKeys(Keys(b[1..]));
    }
    forall k ensures k in Keys(a[1..]) <==> k in Keys(b[1..]) {
      assert k in Keys(a) <==> k == a[0].0 || k in Keys(a[1..]);
      assert k in Keys(b) <==> k == b[0].0 || k in Keys(b[1..]);
    }
  }

  /** Two well-formed objects with the same keys, values and non-index key order are equal. */
  lemma {:induction false} PropsEqual(a: Props, b: Props)
    requires WellFormed(a) && WellFormed(b)
    requires forall k :: k in Keys(a) <==> k in Keys(b)
    requires NamedKeys(Keys(a)) == NamedKeys(Keys(b))
    requires forall k :: Get(a, k) == Get(b, k)
    ensures a == b
    decreases |a|
  {
    if a == [] {
      assert forall i :: 0 <= i < |b| ==> Keys(b)[i] in Keys(b);
    } else {
      assert Keys(a)[0] in Keys(a);
      assert b != [];
      SameFirstKey(a, b);
      GetAt(a, 0);
      GetAt(b, 0);
      assert a[0] == b[0];
      TailsAlike(a, b);
      PropsEqual(a[1..], b[1..]);
      assert a == [a[0]] + a[1..];
      assert b == [b[0]] + b[1..];
    }
  }

  // ---------------------------------------------------------------------------
  // The envelope

  /** The creator used when `settings.apiSettings.creator` is falsy. */
  const DefaultCreator: string := "Created Using Skyzo"

  /** `settings.apiSettings.creator || "Created Using Skyzo"`. */
  function CreatorOf(setting: Value): Value {
    if Truthy(setting) then setting else Str(DefaultCreator)
  }

  /** The own enumerable properties the spread copies from `v`, in order. */
  function OwnProps(v: Value): Props {
    match v
    case Obj(props) => props
    case Arr(elems) => seq(|elems|, i requires 0 <= i < |elems| => (NatToString(i), elems[i]))
    case _ => []
  }

  /** The object literal `{ status: data.status, creator: <creator>, ...data }`. */
  function EnvelopeProps(setting: Value, data: Value): Props {
    CopyInto([("status", Get(OwnProps(data), "status")), ("creator", CreatorOf(setting))], OwnProps(data))
  }

  /**
   * The value the replaced `res.json` hands to the original one: the envelope for
   * a truthy value of type "object", the payload itself otherwise.
   */
  function JsonArgument(setting: Value, data: Value): (r: Value)
    ensures !(data.Arr? || data.Obj?) ==> r == data
    ensures data.Arr? || data.Obj? ==> r.Obj? && r.props == EnvelopeProps(setting, data)
  {
    if Truthy(data) && TypeOf(data) == "object" then Obj(EnvelopeProps(setting, data)) else data
  }

  lemma HeaderWellFormed(s: Value, c: Value)
    ensures WellFormed([("status", s), ("creator", c)])
    ensures Keys([("status", s), ("creator", c)]) == ["status", "creator"]
  {
    NotIndexWithLetter("status", 0);
    NotIndexWithLetter("creator", 0);
    assert Keys([("status", s), ("creator", c)]) == ["status", "creator"];
  }

  lemma ArrayPropsWellFormed(elems: seq<Value>)
    requires |elems| <= MaxArrayIndex + 1
    ensures WellFormed(OwnProps(Arr(elems)))
    ensures forall i :: 0 <= i < |elems| ==> IsArrayIndex(Keys(OwnProps(Arr(elems)))[i])
  {
    var ks := Keys(OwnProps(Arr(elems)));
    forall i | 0 <= i < |elems| ensures IsArrayIndex(ks[i]) && IndexValue(ks[i]) == i {
      IndexKeyOf(i);
    }
  }

  lemma OwnPropsWellFormed(v: Value)
    requires ValidValue(v)
    ensures WellFormed(OwnProps(v))
  {
    if v.Arr? {
      ArrayPropsWellFormed(v.elems);
    }
  }

  /** The keys and values of the envelope of an object or array payload. */
  lemma EnvelopeContents(setting: Value, data: Value)
    requires ValidValue(data) && (data.Arr? || data.Obj?)
    ensures WellFormed(EnvelopeProps(setting, data))
    ensures forall k :: k in Keys(EnvelopeProps(setting, data)) <==>
      k == "status" || k == "creator" || k in Keys(OwnProps(data))
    ensures forall k ::
              Get(EnvelopeProps(setting, data), k) ==
                if k in Keys(OwnProps(data)) then Get(OwnProps(data), k)
                else if k == "creator" then CreatorOf(setting)
                else Undefined
  {
    var src := OwnProps(data);
    var t := [("status", Get(src, "status")), ("creator", CreatorOf(setting))];
    HeaderWellFormed(Get(src, "status"), CreatorOf(setting));
    OwnPropsWellFormed(data);
    CopyIntoContents(t, src);
    if "status" !in Keys(src) {
      GetAbsent(src, "status");
    }
    assert Get(t, "status") == Get(src, "status");
    assert Get(t, "creator") == CreatorOf(setting);
    forall k | k !in Keys(src) && k != "status" && k != "creator" ensures Get(t, k) == Undefined {
      GetAbsent(t, k);
    }
  }

  /** The order of the envelope's non-index keys: `status`, `creator`, then the payload's others. */
  lemma EnvelopeOrder(setting: Value, data: Value)
    requires ValidValue(data) && (data.Arr? || data.Obj?)
    ensures NamedKeys(Keys(EnvelopeProps(setting, data))) ==
      ["status", "creator"] + FilterOut(NamedKeys(Keys(OwnProps(data))), {"status", "creator"})
  {
    var src := OwnProps(data);
    var t := [("status", Get(src, "status")), ("creator", CreatorOf(setting))];
    HeaderWellFormed(Get(src, "status"), CreatorOf(setting));
    OwnPropsWellFormed(data);
    CopyIntoOrder(t, src);
    NotIndexWithLetter("status", 0);
    NotIndexWithLetter("creator", 0);
    assert NamedKeys(["status", "creator"]) == ["status", "creator"];
    KeySetIsKeys(t);
    assert KeySet(t) == {"status", "creator"};
  }

  /** Own-property lookup on a concatenation reads the first part first. */
  lemma {:induction false} GetAppend(a: Props, b: Props, k: string)
    ensures Get(a + b, k) == if k in Keys(a) then Get(a, k) else Get(b, k)
  {
    if a == [] {
      assert a + b == b;
    } else {
      assert (a + b)[0] == a[0];
      assert (a + b)[1..] == a[1..] + b;
      assert Keys(a) == [a[0].0] + Keys(a[1..]);
      GetAppend(a[1..], b, k);
    }
  }

  /** Appending named keys behind an object's keys keeps it well formed. */
  lemma AppendNamedWellFormed(o: Props, p: Props)
    requires WellFormed(o) && Distinct(Keys(p))
    requires forall i :: 0 <= i < |p| ==> !IsArrayIndex(p[i].0) && p[i].0 !in Keys(o)
    ensures WellFormed(o + p)
  {
    var ks := Keys(o + p);
    assert ks == Keys(o) + Keys(p);
    forall i, j | 0 <= i < j < |ks| ensures ks[i] != ks[j] {
      if i < |o| && j >= |o| {
        assert ks[i] == Keys(o)[i] && Keys(o)[i] in Keys(o);
        assert ks[j] == p[j - |o|].0;
      }
    }
    forall j | |o| <= j < |ks| ensures !IsArrayIndex(ks[j]) {
      assert ks[j] == p[j - |o|].0;
    }
  }

  // ---------------------------------------------------------------------------
  // Properties of the envelope

  /** The envelope's `status` is the payload's own `status`, `undefined` when it has none. */
  lemma StatusField(setting: Value, data: Value)
    requires ValidValue(data) && (data.Arr? || data.Obj?)
    ensures "status" in Keys(JsonArgument(setting, data).props)
    ensures Get(JsonArgument(setting, data).props, "status") == Get(OwnProps(data), "status")
    ensures "status" !in Keys(OwnProps(data)) ==> Get(JsonArgument(setting, data).props, "status") == Undefined
  {
    EnvelopeContents(setting, data);
    if "status" !in Keys(OwnProps(data)) {
      GetAbsent(OwnProps(data), "status");
    }
  }

  /** The envelope's `creator` is the payload's own one if present, else the configured one or the default. */
  lemma CreatorField(setting: Value, data: Value)
    requires ValidValue(data) && (data.Arr? || data.Obj?)
    ensures "creator" in Keys(JsonArgument(setting, data).props)
    ensures Get(JsonArgument(setting, data).props, "creator") ==
      if "creator" in Keys(OwnProps(data)) then Get(OwnProps(data), "creator")
      else if Truthy(setting) then setting
      else Str(DefaultCreator)
  {
    EnvelopeContents(setting, data);
  }

  /** Every payload property survives with its value; nothing but `status` and `creator` is added. */
  lemma PayloadFieldsKept(setting: Value, data: Value)
    requires ValidValue(data) && (data.Arr? || data.Obj?)
    ensures forall k :: k in Keys(OwnProps(data)) ==>
              k in Keys(JsonArgument(setting, data).props) &&
              Get(JsonArgument(setting, data).props, k) == Get(OwnProps(data), k)
    ensures forall k :: k in Keys(JsonArgument(setting, data).props) ==>
              k == "status" || k == "creator" || k in Keys(OwnProps(data))
  {
    EnvelopeContents(setting, data);
  }

  /**
   * For an object payload without array-index keys the envelope's keys are
   * `status`, `creator`, then the payload's other keys in the payload's order.
   */
  lemma KeyOrderNoIndex(setting: Value, data: Value)
    requires data.Obj? && WellFormed(data.props)
    requires forall k :: k in Keys(data.props) ==> !IsArrayIndex(k)
    ensures Keys(JsonArgument(setting, data).props) ==
      ["status", "creator"] + FilterOut(Keys(data.props), {"status", "creator"})
  {
    var r := EnvelopeProps(setting, data);
    EnvelopeContents(setting, data);
    EnvelopeOrder(setting, data);
    NotIndexWithLetter("status", 0);
    NotIndexWithLetter("creator", 0);
    forall i | 0 <= i < |Keys(r)| ensures !IsArrayIndex(Keys(r)[i]) {
      assert Keys(r)[i] in Keys(r);
    }
    NamedKeysOfNoIndex(Keys(r));
    forall i | 0 <= i < |Keys(data.props)| ensures !IsArrayIndex(Keys(data.props)[i]) {
      assert Keys(data.props)[i] in Keys(data.props);
    }
    NamedKeysOfNoIndex(Keys(data.props));
  }

  /** Wrapping what was already wrapped changes nothing: same keys, values and order. */
  lemma WrapIdempotent(setting: Value, data: Value)
    requires ValidValue(data)
    ensures JsonArgument(setting, JsonArgument(setting, data)) == JsonArgument(setting, data)
  {
    if data.Arr? || data.Obj? {
      var drop := {"status", "creator"};
      var r := EnvelopeProps(setting, data);
      EnvelopeContents(setting, data);
      EnvelopeOrder(setting, data);
      var r2 := EnvelopeProps(setting, Obj(r));
      EnvelopeContents(setting, Obj(r));
      EnvelopeOrder(setting, Obj(r));
      assert forall k :: k in Keys(r2) <==> k in Keys(r);
      forall k ensures Get(r2, k) == Get(r, k) {
        if k !in Keys(r) {
          GetAbsent(r, k);
        }
      }
      var x := FilterOut(NamedKeys(Keys(OwnProps(data))), drop);
      var z := ["status", "creator"] + x;
      assert z[0] in drop && z[1..] == ["creator"] + x;
      assert z[1..][0] in drop && z[1..][1..] == x;
      assert FilterOut(z, drop) == FilterOut(x, drop);
      FilterOutTwice(NamedKeys(Keys(OwnProps(data))), drop);
      PropsEqual(r2, r);
    }
  }

  /**
   * An array is wrapped like an object: the result holds its index keys in order,
   * then `status` (undefined) and `creator`.
   */
  lemma ArrayPayload(setting: Value, elems: seq<Value>)
    requires |elems| <= MaxArrayIndex + 1
    ensures JsonArgument(setting, Arr(elems)) ==
      Obj(OwnProps(Arr(elems)) + [("status", Undefined), ("creator", CreatorOf(setting))])
  {
    var own := OwnProps(Arr(elems));
    var tail := [("status", Undefined), ("creator", CreatorOf(setting))];
    var want := own + tail;
    var r := EnvelopeProps(setting, Arr(elems));
    ArrayPropsWellFormed(elems);
    EnvelopeContents(setting, Arr(elems));
    EnvelopeOrder(setting, Arr(elems));
    HeaderWellFormed(Undefined, CreatorOf(setting));
    NotIndexWithLetter("status", 0);
    NotIndexWithLetter("creator", 0);
    assert "status" !in Keys(own) && "creator" !in Keys(own);
    AppendNamedWellFormed(own, tail);
    assert Keys(want) == Keys(own) + ["status", "creator"];
    forall k ensures Get(want, k) == Get(r, k) {
      GetAppend(own, tail, k);
      if k !in Keys(own) && k != "status" && k != "creator" {
        GetAbsent(tail, k);
      }
    }
    NamedKeysOfIndices(Keys(own));
    NamedKeysAppend(Keys(own), ["status", "creator"]);
    assert NamedKeys(["status", "creator"]) == ["status", "creator"];
    PropsEqual(r, want);
  }

  // ---------------------------------------------------------------------------
  // The middleware's state

  /** `global.totalreq || 0`: the count so far, zero while unset. */
  function RequestsSoFar(totalreq: Option<nat>): nat {
    match totalreq
    case None => 0
    case Some(n) => n
  }

  /**
   * The server process: the configured creator (read once from the settings
   * file) and the global request counter the middleware bumps.
   */
  class Server {
    const creatorSetting: Value
    var totalreq: Option<nat>

    constructor(setting: Value)
      ensures creatorSetting == setting && totalreq == None
    {
      creatorSetting := setting;
      totalreq := None;
    }

    /**
     * One request through the middleware: bump the counter, then send what the
     * route handler passes to `res.json` (`None` when it does not call it).
     */
    method Handle(payload: Option<Value>) returns (sent: Option<Value>)
      modifies this
      ensures totalreq == Some(RequestsSoFar(old(totalreq)) + 1)
      ensures payload.None? ==> sent.None?
      ensures payload.Some? ==> sent == Some(JsonArgument(creatorSetting, payload.value))
    {
      totalreq := Some(RequestsSoFar(totalreq) + 1);
      if payload.Some? {
        sent := Some(JsonArgument(creatorSetting, payload.value));
      } else {
        sent := None;
      }
    }
  }
}
