/**
 * Value typing and property-map primitives shared by the tree walk and the two
 * post-walk rule engines: reading the value table, naming a property id,
 * casting a value to its property's declared type and merging property maps.
 */
module PropsHandler {
  import opened Wrappers
  import opened Php
  import opened Schema

  /** `$tree['p'][$id]`: the typed name of property `id`; of repeated ids the last entry counts. */
  function TypedName(p: seq<(int, string)>, id: int): (r: Option<string>)
    ensures r.None? <==> forall i :: 0 <= i < |p| ==> p[i].0 != id
    ensures r.Some? ==> exists i :: 0 <= i < |p| && p[i] == (id, r.value) && forall j :: i < j < |p| ==> p[j].0 != id
  {
    if |p| == 0 then None
    else if p[|p| - 1].0 == id then Some(p[|p| - 1].1)
    else TypedName(p[..|p| - 1], id)
  }

  /** The type character of property `id`: `substr($typedName, 0, 1)`, empty for an unknown id. */
  function TypeChar(t: Tree, id: int): (c: string)
    ensures |c| <= 1
  {
    Take(TypedName(t.doc.p, id).GetOr(""), 1)
  }

  /** `$tree['v'][$valId]`: the raw entry of the value table, null when there is none. */
  function RawValue(t: Tree, valId: int): (r: Value)
    ensures valId !in t.doc.v ==> r == Null
  {
    if valId in t.doc.v then t.doc.v[valId] else Null
  }

  /** `_propertyFromId`: the name of a property id; a missing id gives a null key, which PHP stores as `""`. */
  function PropertyFromId(t: Tree, id: int): (name: string)
    ensures id in t.pnr ==> name == t.pnr[id]
    ensures id !in t.pnr ==> name == ""
  {
    if id in t.pnr then t.pnr[id] else ""
  }

  /**
   * `_convertToTypedByType`: `b` gives a boolean (a string is true exactly when
   * it is `'1'` or spells `true` in any case), `s` and `d` a string, `i` an
   * integer; any other type character leaves the value as it is.
   */
  function ConvertByType(v: Value, t: string): (r: Value)
    ensures t == "b" ==> r.Bool?
    ensures t == "b" && v.Str? ==> (r.b <==> v.s == "1" || ToLower(v.s) == "true")
    ensures t == "b" && !v.Str? ==> r.b == ToBool(v)
    ensures (t == "s" || t == "d") ==> r == Str(ToStr(v))
    ensures t == "i" ==> r == Int(ToInt(v))
    ensures t != "b" && t != "s" && t != "d" && t != "i" ==> r == v
  {
    if t == "b" then
      (if v.Str? then Bool(v.s == "1" || ToLower(v.s) == "true") else Bool(ToBool(v)))
    else if t == "s" || t == "d" then Str(ToStr(v))
    else if t == "i" then Int(ToInt(v))
    else v
  }

  /** A value already of the requested type is left alone by the conversion. */
  lemma ConvertFixesTyped(v: Value, t: string)
    requires (t == "b" && v.Bool?) || ((t == "s" || t == "d") && v.Str?) || (t == "i" && v.Int?)
    ensures ConvertByType(v, t) == v
  {
  }

  /** Converting twice with the same type character is the same as converting once. */
  lemma ConvertIdempotent(v: Value, t: string)
    ensures ConvertByType(ConvertByType(v, t), t) == ConvertByType(v, t)
  {
    var once := ConvertByType(v, t);
    if t == "b" || t == "s" || t == "d" || t == "i" {
      ConvertFixesTyped(once, t);
    }
  }

  /** `_convertToTyped`: the conversion selected by the first character of the property's typed name. */
  function ConvertToTyped(t: Tree, v: Value, propId: int): (r: Value)
    ensures r == ConvertByType(v, TypeChar(t, propId))
    ensures TypeChar(t, propId) == "b" ==> r.Bool?
    ensures TypeChar(t, propId) in {"s", "d"} ==> r.Str?
    ensures TypeChar(t, propId) == "i" ==> r.Int?
    ensures TypedName(t.doc.p, propId).None? ==> r == v
  {
    ConvertByType(v, TypeChar(t, propId))
  }

  /** `_getValue`: the value-table entry, converted to the property's type when `typed` holds. */
  function GetValue(t: Tree, propId: int, valId: int, typed: bool): (r: Value)
    ensures !typed ==> r == RawValue(t, valId)
    ensures typed ==> r == ConvertToTyped(t, RawValue(t, valId), propId)
    ensures !typed && valId in t.doc.v ==> r == t.doc.v[valId]
    ensures !typed && valId !in t.doc.v ==> r == Null
    ensures typed && TypeChar(t, propId) == "b" ==> r.Bool?
    ensures typed && TypeChar(t, propId) in {"s", "d"} ==> r.Str?
    ensures typed && TypeChar(t, propId) == "i" ==> r.Int?
    ensures typed && TypedName(t.doc.p, propId).None? ==> r == RawValue(t, valId)
  {
    var raw := RawValue(t, valId);
    if typed then ConvertToTyped(t, raw, propId) else raw
  }

  /** `_valueAsTypedFromId`: the value-table entry converted to the type of `propId`. */
  function ValueAsTypedFromId(t: Tree, valId: int, propId: int): (r: Value)
    ensures r == GetValue(t, propId, valId, true)
    ensures TypeChar(t, propId) == "b" ==> r.Bool?
    ensures TypeChar(t, propId) in {"s", "d"} ==> r.Str?
    ensures TypeChar(t, propId) == "i" ==> r.Int?
    ensures valId !in t.doc.v && TypeChar(t, propId) !in {"b", "s", "d", "i"} ==> r == Null
  {
    ConvertToTyped(t, RawValue(t, valId), propId)
  }

  /** A typed value is already of its property's type: converting it again changes nothing. */
  lemma TypedValueStable(t: Tree, propId: int, valId: int)
    ensures ConvertToTyped(t, GetValue(t, propId, valId, true), propId) == GetValue(t, propId, valId, true)
  {
    ConvertIdempotent(RawValue(t, valId), TypeChar(t, propId));
  }

  /**
   * `_mergeProperties`: every entry of `over` is written into `base`. Nothing
   * happens when `base` is not a map (`None`) or `over` is null or empty.
   */
  function Merge(base: Option<Props>, over: Option<Props>): (r: Option<Props>)
    ensures r.Some? <==> base.Some?
    ensures base.None? || over.None? ==> r == base
    ensures r.Some? ==> r.value.Keys == base.value.Keys + (if over.Some? then over.value.Keys else {})
    ensures r.Some? && over.Some? ==> forall k :: k in over.value ==> r.value[k] == over.value[k]
    ensures r.Some? ==> forall k :: k in base.value && (over.None? || k !in over.value) ==> r.value[k] == base.value[k]
  {
    if base.Some? && over.Some? && |over.value| > 0 then Some(base.value + over.value) else base
  }

  /** Merging the same map twice changes nothing the first merge did not. */
  lemma MergeIdempotent(base: Option<Props>, over: Option<Props>)
    ensures Merge(Merge(base, over), over) == Merge(base, over)
  {
    var once := Merge(base, over);
    var twice := Merge(once, over);
    if once.Some? {
      assert twice.value.Keys == once.value.Keys;
      assert forall k :: k in once.value ==> twice.value[k] == once.value[k];
      assert twice.value == once.value;
    }
  }

  /**
   * `_initPostWalkHandlers`: the `uar` branch stays (and gets its handler)
   * only when changeable User-Agent properties are wanted; `cpr` always keeps
   * its handler. Nothing else changes.
   */
  function InitHandlers(d: Document, includeChangeable: bool): (r: Document)
    ensures r.uar.Some? <==> d.uar.Some? && includeChangeable
    ensures r.uar.Some? ==> r.uar == d.uar
    ensures r.(uar := d.uar) == d
  {
    if d.uar.Some? && !includeChangeable then d.(uar := None) else d
  }
}
