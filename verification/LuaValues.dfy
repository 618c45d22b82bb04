/**
 The conversions between Go values and Lua values that surround every script:
 mapToTable on the way in, toGoValue on the way out, and what a resource looks like
 after the round trip.

 Numbers are reals; `widen` is the conversion of int64 to float64, rounding included,
 and may be any function. Byte strings are strings.
 */
module LuaValues {
  import opened Prelude
  import Slices

  /** The dynamic types that mapToTable distinguishes. Other stands for every type it does not. */
  datatype Value =
    | Float(x: real)
    | Int64(i: int)
    | Str(s: string)
    | Bool(b: bool)
    | Bytes(bs: string)
    | Time(unix: int)
    | Map(o: Object)
    | Maps(os: seq<Object>)
    | List(es: seq<Value>)
    | Nil
    | Other

  /** A map[string]interface{}. */
  datatype Object = Object(fields: map<string, Value>)

  datatype LValue =
    | LNil
    | LBool(b: bool)
    | LString(s: string)
    | LNumber(x: real)
    | LTable(t: Table)

  /** A Lua table: its array part and its string-keyed part. */
  datatype Table = Table(items: seq<LValue>, fields: map<string, LValue>)

  const EMPTY := Object(map[])

  // ----- Go to Lua -----

  /** mapToTable: a key whose value has no case in the type switch is left out. */
  function MapToTable(widen: int -> real, o: Object): Table
    decreases o
  {
    Table([], map k | k in o.fields && ToLua(widen, o.fields[k]).Some? :: ToLua(widen, o.fields[k]).value)
  }

  function ToLua(widen: int -> real, v: Value): Option<LValue>
    decreases v
  {
    match v
    case Float(x) => Some(LNumber(x))
    case Int64(i) => Some(LNumber(widen(i)))
    case Str(s) => Some(LString(s))
    case Bool(b) => Some(LBool(b))
    case Bytes(bs) => Some(LString(bs))
    case Time(unix) => Some(LNumber(widen(unix)))
    case Map(o) => Some(LTable(MapToTable(widen, o)))
    case Maps(os) =>
      Some(LTable(Table(seq(|os|, i requires 0 <= i < |os| => LTable(MapToTable(widen, os[i]))), map[])))
    case List(es) => Some(LTable(Table(AppendAll(widen, es), map[])))
    case Nil => None
    case Other => None
  }

  /** The element loop of a []interface{}: only maps, floats, strings and booleans are appended. */
  function AppendAll(widen: int -> real, es: seq<Value>): seq<LValue>
    decreases es
  {
    if es == [] then []
    else
      Element(widen, es[0]) + AppendAll(widen, es[1..])
  }

  /** One round of that loop: what the inner type switch appends. */
  function Element(widen: int -> real, v: Value): seq<LValue>
    decreases v
  {
    match v
    case Map(o) => [LTable(MapToTable(widen, o))]
    case Float(x) => [LNumber(x)]
    case Str(s) => [LString(s)]
    case Bool(b) => [LBool(b)]
    case _ => []
  }

  // ----- Lua to Go -----

  /** The position of the last element that is not nil. */
  function MaxN(a: seq<LValue>): nat {
    if a == [] then 0
    else if a[|a| - 1] != LNil then |a|
    else MaxN(a[..|a| - 1])
  }

  /** toGoValue: a table with an array part becomes a list, and loses its other fields. */
  function ToGoValue(lv: LValue): Value
    decreases lv
  {
    match lv
    case LNil => Nil
    case LBool(b) => Bool(b)
    case LString(s) => Str(s)
    case LNumber(x) => Float(x)
    case LTable(t) =>
      if MaxN(t.items) == 0 then
        Map(Object(map k | k in t.fields && t.fields[k] != LNil :: ToGoValue(t.fields[k])))
      else
        MaxNInBounds(t.items);
        var n := MaxN(t.items);
        List(seq(n, i requires 0 <= i < n <= |t.items| => ToGoValue(t.items[i])))
  }

  lemma MaxNInBounds(a: seq<LValue>)
    ensures MaxN(a) <= |a|
    ensures LNil !in a ==> MaxN(a) == |a|
  {
  }

  /**
   What a script's table becomes, fields and gaps included. If its array part holds only nil,
   it is the map of its other fields; otherwise it is the list up to the last item that is not
   nil, with nil for each gap, whatever other fields it has.
   */
  lemma {:induction false} TableToGo(t: Table)
    ensures var g := ToGoValue(LTable(t));
            if forall i :: 0 <= i < |t.items| ==> t.items[i] == LNil then
              && g.Map?
              && (forall k :: k in g.o.fields <==> k in t.fields && t.fields[k] != LNil)
              && (forall k :: k in g.o.fields ==> g.o.fields[k] == ToGoValue(t.fields[k]))
            else
              && g.List? && 0 < |g.es| <= |t.items| && t.items[|g.es| - 1] != LNil
              && (forall i :: |g.es| <= i < |t.items| ==> t.items[i] == LNil)
              && (forall i :: 0 <= i < |g.es| ==> g.es[i] == ToGoValue(t.items[i]))
              && (forall i :: 0 <= i < |g.es| && t.items[i] == LNil ==> g.es[i] == Nil)
  {
    MaxNInBounds(t.items);
    LastItem(t.items);
  }

  lemma {:induction false} LastItem(a: seq<LValue>)
    ensures MaxN(a) <= |a| && (MaxN(a) > 0 ==> a[MaxN(a) - 1] != LNil)
    ensures forall i :: MaxN(a) <= i < |a| ==> a[i] == LNil
  {
    if a != [] && a[|a| - 1] == LNil {
      LastItem(a[..|a| - 1]);
      assert forall i :: 0 <= i < |a| - 1 ==> a[i] == a[..|a| - 1][i];
    }
  }

  // ----- The normal form -----

  predicate Kept(v: Value) {
    !v.Nil? && !v.Other?
  }

  predicate KeptInList(v: Value) {
    v.Map? || v.Float? || v.Str? || v.Bool?
  }

  /** The items of a list that appear in its table. */
  function KeptItems(es: seq<Value>): (r: seq<Value>)
    ensures forall v :: v in r <==> v in es && KeptInList(v)
  {
    Slices.Filter(es, KeptInList)
  }

  /** What a resource is reduced to: unknown values and nils go, numbers widen, empty lists turn into empty maps. */
  function NormalObject(widen: int -> real, o: Object): Object
    decreases o
  {
    Object(map k | k in o.fields && Kept(o.fields[k]) :: Normal(widen, o.fields[k]))
  }

  function Normal(widen: int -> real, v: Value): Value
    decreases v
  {
    match v
    case Int64(i) => Float(widen(i))
    case Time(unix) => Float(widen(unix))
    case Bytes(bs) => Str(bs)
    case Map(o) => Map(NormalObject(widen, o))
    case Maps(os) =>
      if os == [] then Map(EMPTY)
      else List(seq(|os|, i requires 0 <= i < |os| => Map(NormalObject(widen, os[i]))))
    case List(es) =>
      var kept := KeptItems(es);
      if kept == [] then Map(EMPTY)
      else List(seq(|kept|, i requires 0 <= i < |kept| => assert kept[i] in kept; Normal(widen, kept[i])))
    case _ => v
  }

  // ----- The round trip -----

  /** A value makes it into the table exactly when it is kept, and comes back normalised. */
  lemma {:induction false} ValueRoundTrip(widen: int -> real, v: Value)
    ensures ToLua(widen, v).Some? <==> Kept(v)
    ensures Kept(v) ==> ToLua(widen, v).value != LNil && ToGoValue(ToLua(widen, v).value) == Normal(widen, v)
    decreases v
  {
    match v
    case Map(o) => ObjectRoundTrip(widen, o);
    case Maps(os) => MapsRoundTrip(widen, os);
    case List(es) =>
      ListRoundTrip(widen, es);
      ArrayToGo(AppendAll(widen, es));
    case _ =>
  }

  /** A table without fields comes back as a list, or as an empty map when it is empty. */
  lemma {:induction false} ArrayToGo(items: seq<LValue>)
    requires LNil !in items
    ensures var g := ToGoValue(LTable(Table(items, map[])));
            if items == [] then g == Map(EMPTY)
            else && g.List? && |g.es| == |items|
                 && forall i :: 0 <= i < |items| ==> g.es[i] == ToGoValue(items[i])
  {
    MaxNInBounds(items);
    if items == [] {
      assert ToGoValue(LTable(Table(items, map[]))).o.fields == map[];
    }
  }

  lemma {:induction false} MapsRoundTrip(widen: int -> real, os: seq<Object>)
    ensures ToGoValue(ToLua(widen, Maps(os)).value) == Normal(widen, Maps(os))
    decreases os
  {
    var items := ToLua(widen, Maps(os)).value.t.items;
    ArrayToGo(items);
    forall i | 0 <= i < |os|
      ensures ToGoValue(items[i]) == Map(NormalObject(widen, os[i]))
    {
      ObjectRoundTrip(widen, os[i]);
    }
  }

  lemma {:induction false} ListRoundTrip(widen: int -> real, es: seq<Value>)
    ensures |AppendAll(widen, es)| == |KeptItems(es)| && LNil !in AppendAll(widen, es)
    ensures forall i :: 0 <= i < |KeptItems(es)| ==>
              ToGoValue(AppendAll(widen, es)[i]) == Normal(widen, KeptItems(es)[i])
    decreases es
  {
    if es != [] {
      var rest, kept := AppendAll(widen, es[1..]), KeptItems(es[1..]);
      ListRoundTrip(widen, es[1..]);
      ElementRoundTrip(widen, es[0]);
      assert AppendAll(widen, es) == Element(widen, es[0]) + rest;
      assert KeptItems(es) == (if KeptInList(es[0]) then [es[0]] else []) + kept;
      hide Element, ToGoValue, Normal, AppendAll, KeptItems;
      if KeptInList(es[0]) {
        forall i | 0 <= i < |kept| + 1
          ensures ToGoValue(AppendAll(widen, es)[i]) == Normal(widen, KeptItems(es)[i])
        {
          assert i > 0 ==> ToGoValue(rest[i - 1]) == Normal(widen, kept[i - 1]);
        }
      }
    }
  }

  lemma {:induction false} ElementRoundTrip(widen: int -> real, v: Value)
    ensures if KeptInList(v) then
              && |Element(widen, v)| == 1 && Element(widen, v)[0] != LNil
              && ToGoValue(Element(widen, v)[0]) == Normal(widen, v)
            else Element(widen, v) == []
    decreases v
  {
    if v.Map? {
      ObjectRoundTrip(widen, v.o);
    }
  }

  /**
   Go to Lua and back is the normal form, for every input map: the parts of a resource
   that a script never sees, or sees changed, are exactly the ones it removes or changes.
   */
  lemma {:induction false} ObjectRoundTrip(widen: int -> real, o: Object)
    ensures ToGoValue(LTable(MapToTable(widen, o))) == Map(NormalObject(widen, o))
    decreases o
  {
    var t := MapToTable(widen, o);
    forall k | k in o.fields
      ensures k in t.fields <==> Kept(o.fields[k])
      ensures Kept(o.fields[k]) ==> t.fields[k] != LNil && ToGoValue(t.fields[k]) == Normal(widen, o.fields[k])
    {
      ValueRoundTrip(widen, o.fields[k]);
    }
    assert ToGoValue(LTable(t)).o.fields == NormalObject(widen, o).fields;
  }

  // ----- Which resources survive -----

  /** Floats, strings, booleans, maps, and non-empty lists of these without lists directly inside. */
  predicate IsNormal(v: Value)
    decreases v
  {
    match v
    case Float(_) => true
    case Str(_) => true
    case Bool(_) => true
    case Map(o) => IsNormalObject(o)
    case List(es) => es != [] && forall i :: 0 <= i < |es| ==> KeptInList(es[i]) && IsNormal(es[i])
    case _ => false
  }

  predicate IsNormalObject(o: Object)
    decreases o
  {
    forall k :: k in o.fields ==> IsNormal(o.fields[k])
  }

  lemma {:induction false} NormalIsNormal(widen: int -> real, v: Value)
    requires Kept(v)
    ensures IsNormal(Normal(widen, v)) && (KeptInList(v) ==> KeptInList(Normal(widen, v)))
    decreases v
  {
    match v
    case Map(o) => NormalObjectIsNormal(widen, o);
    case Maps(os) =>
      forall i | 0 <= i < |os|
        ensures IsNormalObject(NormalObject(widen, os[i]))
      {
        NormalObjectIsNormal(widen, os[i]);
      }
    case List(es) =>
      forall i | 0 <= i < |KeptItems(es)|
        ensures IsNormal(Normal(widen, KeptItems(es)[i])) && KeptInList(Normal(widen, KeptItems(es)[i]))
      {
        assert KeptItems(es)[i] in KeptItems(es);
        NormalIsNormal(widen, KeptItems(es)[i]);
      }
    case _ =>
  }

  lemma {:induction false} NormalObjectIsNormal(widen: int -> real, o: Object)
    ensures IsNormalObject(NormalObject(widen, o))
    decreases o
  {
    forall k | k in o.fields && Kept(o.fields[k])
      ensures IsNormal(Normal(widen, o.fields[k]))
    {
      NormalIsNormal(widen, o.fields[k]);
    }
  }

  lemma {:induction false} NormalIsFixed(widen: int -> real, v: Value)
    requires IsNormal(v)
    ensures Kept(v) && Normal(widen, v) == v
    decreases v
  {
    match v
    case Map(o) => NormalObjectIsFixed(widen, o);
    case List(es) =>
      forall i | 0 <= i < |es|
        ensures KeptInList(es[i]) && Normal(widen, es[i]) == es[i]
      {
        NormalIsFixed(widen, es[i]);
      }
      Slices.FilterLength(es, KeptInList);
      assert Normal(widen, v).es == es;
    case _ =>
  }

  lemma {:induction false} NormalObjectIsFixed(widen: int -> real, o: Object)
    requires IsNormalObject(o)
    ensures NormalObject(widen, o) == o
    decreases o
  {
    forall k | k in o.fields
      ensures Kept(o.fields[k]) && Normal(widen, o.fields[k]) == o.fields[k]
    {
      NormalIsFixed(widen, o.fields[k]);
    }
    assert NormalObject(widen, o).fields == o.fields;
  }

  /** A map comes back unchanged exactly when it is normal. */
  lemma {:induction false} UnchangedIffNormal(widen: int -> real, o: Object)
    ensures ToGoValue(LTable(MapToTable(widen, o))) == Map(o) <==> IsNormalObject(o)
  {
    ObjectRoundTrip(widen, o);
    NormalObjectIsNormal(widen, o);
    if IsNormalObject(o) {
      NormalObjectIsFixed(widen, o);
    }
  }

  /** One round trip makes any map normal, so a second one changes nothing. */
  lemma {:induction false} RoundTripIsIdempotent(widen: int -> real, o: Object, once: Object)
    requires ToGoValue(LTable(MapToTable(widen, o))) == Map(once)
    ensures ToGoValue(LTable(MapToTable(widen, once))) == Map(once)
  {
    ObjectRoundTrip(widen, o);
    NormalObjectIsNormal(widen, o);
    UnchangedIffNormal(widen, once);
  }

  // ----- Lossless up to widening -----

  /** The same value with every number a float, every byte slice a string and every list of one type. */
  function Widened(widen: int -> real, v: Value): Value
    decreases v
  {
    match v
    case Int64(i) => Float(widen(i))
    case Time(unix) => Float(widen(unix))
    case Bytes(bs) => Str(bs)
    case Map(o) => Map(WidenedObject(widen, o))
    case Maps(os) => List(seq(|os|, i requires 0 <= i < |os| => Map(WidenedObject(widen, os[i]))))
    case List(es) => List(seq(|es|, i requires 0 <= i < |es| => Widened(widen, es[i])))
    case _ => v
  }

  function WidenedObject(widen: int -> real, o: Object): Object
    decreases o
  {
    Object(map k | k in o.fields :: Widened(widen, o.fields[k]))
  }

  /** No nil, no unknown type, no empty list, and in lists only maps, floats, strings and booleans. */
  predicate Lossless(v: Value)
    decreases v
  {
    match v
    case Map(o) => LosslessObject(o)
    case Maps(os) => os != [] && forall i :: 0 <= i < |os| ==> LosslessObject(os[i])
    case List(es) => es != [] && forall i :: 0 <= i < |es| ==> KeptInList(es[i]) && Lossless(es[i])
    case _ => Kept(v)
  }

  predicate LosslessObject(o: Object)
    decreases o
  {
    forall k :: k in o.fields ==> Lossless(o.fields[k])
  }

  lemma {:induction false} MapsLosslessIff(widen: int -> real, os: seq<Object>)
    ensures Normal(widen, Maps(os)) == Widened(widen, Maps(os)) <==> Lossless(Maps(os))
    decreases os
  {
    if os != [] {
      var n, w := Normal(widen, Maps(os)).es, Widened(widen, Maps(os)).es;
      forall i | 0 <= i < |os|
        ensures n[i] == w[i] <==> LosslessObject(os[i])
      {
        ObjectLosslessIff(widen, os[i]);
      }
    }
  }

  lemma {:induction false} ListLosslessIff(widen: int -> real, es: seq<Value>)
    ensures Normal(widen, List(es)) == Widened(widen, List(es)) <==> Lossless(List(es))
    decreases es
  {
    Slices.FilterLength(es, KeptInList);
    if es != [] && KeptItems(es) == es {
      var n, w := Normal(widen, List(es)).es, Widened(widen, List(es)).es;
      forall i | 0 <= i < |es|
        ensures KeptInList(es[i]) && (n[i] == w[i] <==> Lossless(es[i]))
      {
        assert es[i] in KeptItems(es);
        ValueLosslessIff(widen, es[i]);
      }
    } else {
      assert |Widened(widen, List(es)).es| == |es|;
    }
  }

  lemma {:induction false} ValueLosslessIff(widen: int -> real, v: Value)
    ensures Kept(v) && Normal(widen, v) == Widened(widen, v) <==> Lossless(v)
    decreases v, 1
  {
    match v
    case Map(o) => ObjectLosslessIff(widen, o);
    case Maps(os) => MapsLosslessIff(widen, os);
    case List(es) => ListLosslessIff(widen, es);
    case _ =>
  }

  lemma {:induction false} ObjectLosslessIff(widen: int -> real, o: Object)
    ensures NormalObject(widen, o) == WidenedObject(widen, o) <==> LosslessObject(o)
    decreases o
  {
    var n, w := NormalObject(widen, o).fields, WidenedObject(widen, o).fields;
    forall k | k in o.fields
      ensures (k in n && n[k] == w[k]) <==> Lossless(o.fields[k])
    {
      ValueLosslessIff(widen, o.fields[k]);
    }
    if LosslessObject(o) {
      assert n == w;
    }
  }

  /** The round trip changes nothing but the widening exactly on the lossless maps. */
  lemma {:induction false} RoundTripWidensIff(widen: int -> real, o: Object)
    ensures ToGoValue(LTable(MapToTable(widen, o))) == Map(WidenedObject(widen, o)) <==> LosslessObject(o)
  {
    ObjectRoundTrip(widen, o);
    ObjectLosslessIff(widen, o);
  }
}
