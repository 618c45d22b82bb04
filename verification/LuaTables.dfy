/**
 The other direction: which Lua tables come back unchanged from toGoValue followed by
 mapToTable. This concerns the two conversions alone: in the program what a script returns
 also goes through JSON before it meets mapToTable again (worker.go:599-607).
 */
module LuaTables {
  import opened Prelude
  import opened LuaValues

  /** No array part and no field that is dropped or reshaped. */
  predicate CleanTable(t: Table)
    decreases t
  {
    t.items == [] && forall k :: k in t.fields ==> CleanField(t.fields[k])
  }

  /** A field: a scalar, a clean table, or an array without fields whose items are clean. */
  predicate CleanField(lv: LValue)
    decreases lv
  {
    match lv
    case LNil => false
    case LTable(t) =>
      if t.items == [] then CleanTable(t)
      else t.fields == map[] && forall i :: 0 <= i < |t.items| ==> CleanItem(t.items[i])
    case _ => true
  }

  /** An item of an array: a scalar or a clean table, not another array and not nil. */
  predicate CleanItem(lv: LValue)
    decreases lv
  {
    match lv
    case LNil => false
    case LTable(t) => CleanTable(t)
    case _ => true
  }

  function AllToGo(items: seq<LValue>): (r: seq<Value>)
    ensures |r| == |items|
  {
    seq(|items|, i requires 0 <= i < |items| => ToGoValue(items[i]))
  }

  lemma {:induction false} AppendAllShrinks(widen: int -> real, es: seq<Value>)
    ensures |AppendAll(widen, es)| <= |es|
  {
    if es != [] {
      AppendAllShrinks(widen, es[1..]);
    }
  }

  lemma {:induction false} ItemSurvivesIff(widen: int -> real, lv: LValue)
    ensures Element(widen, ToGoValue(lv)) == [lv] <==> CleanItem(lv)
    decreases lv
  {
    if lv.LTable? {
      MaxNInBounds(lv.t.items);
      if MaxN(lv.t.items) == 0 {
        TableSurvivesIff(widen, lv.t);
      }
    }
  }

  lemma {:induction false} ItemsSurviveIff(widen: int -> real, items: seq<LValue>)
    ensures AppendAll(widen, AllToGo(items)) == items <==> forall i :: 0 <= i < |items| ==> CleanItem(items[i])
    decreases items
  {
    if items != [] {
      var rest := items[1..];
      var es := AllToGo(items);
      assert es[1..] == AllToGo(rest);
      ItemSurvivesIff(widen, items[0]);
      ItemsSurviveIff(widen, rest);
      AppendAllShrinks(widen, es[1..]);
      var e, a := Element(widen, es[0]), AppendAll(widen, es[1..]);
      assert AppendAll(widen, es) == e + a;
      assert |e| <= 1;
      if e + a == items {
        assert |e| == 1;
        assert e == [items[0]] && a == rest by {
          assert (e + a)[0] == e[0];
          assert (e + a)[1..] == a;
        }
      }
      if e == [items[0]] && a == rest {
        assert e + a == items;
      }
      assert (forall i :: 0 <= i < |items| ==> CleanItem(items[i])) <==>
             CleanItem(items[0]) && forall i :: 0 <= i < |rest| ==> CleanItem(rest[i]) by {
        assert forall i :: 0 <= i < |rest| ==> rest[i] == items[i + 1];
        assert forall i :: 0 < i < |items| ==> items[i] == rest[i - 1];
      }
    }
  }

  /** An array field: nil at the end shortens the list, so the array cannot come back whole. */
  lemma {:induction false} ArraySurvivesIff(widen: int -> real, t: Table)
    requires t.items != []
    ensures ToLua(widen, ToGoValue(LTable(t))) == Some(LTable(t)) <==> CleanField(LTable(t))
    decreases t, 0
  {
    var n := MaxN(t.items);
    MaxNInBounds(t.items);
    if n == |t.items| {
      assert ToGoValue(LTable(t)).es == AllToGo(t.items);
      ItemsSurviveIff(widen, t.items);
    } else {
      EndsInNil(t.items);
      assert !CleanItem(t.items[|t.items| - 1]);
      if n > 0 {
        AppendAllShrinks(widen, ToGoValue(LTable(t)).es);
      }
    }
  }

  lemma EndsInNil(a: seq<LValue>)
    requires MaxN(a) != |a|
    ensures a != [] && a[|a| - 1] == LNil
  {
  }

  lemma {:induction false} FieldSurvivesIff(widen: int -> real, lv: LValue)
    ensures lv != LNil && ToLua(widen, ToGoValue(lv)) == Some(lv) <==> CleanField(lv)
    decreases lv
  {
    if lv.LTable? {
      if lv.t.items == [] {
        TableSurvivesIff(widen, lv.t);
      } else {
        ArraySurvivesIff(widen, lv.t);
      }
    }
  }

  /**
   toGoValue and then mapToTable, with nothing in between, give the same table exactly when
   it is clean: a nil, an array inside an array, or an array that also has fields does not
   survive.
   */
  lemma {:induction false} TableSurvivesIff(widen: int -> real, t: Table)
    requires MaxN(t.items) == 0
    ensures MapToTable(widen, ToGoValue(LTable(t)).o) == t <==> CleanTable(t)
    decreases t
  {
    var back := MapToTable(widen, ToGoValue(LTable(t)).o);
    forall k | k in t.fields
      ensures (k in back.fields && back.fields[k] == t.fields[k]) <==> CleanField(t.fields[k])
    {
      FieldSurvivesIff(widen, t.fields[k]);
    }
    if CleanTable(t) {
      assert back.fields == t.fields;
    }
  }
}
