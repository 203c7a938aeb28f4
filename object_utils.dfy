/**
 * `object.ts`: `pickBy`, which copies the truthy properties of an object,
 * and `removeNullProperties`, which drops the properties that are `null` or
 * `undefined`.
 */
module ObjectUtils {

  /**
   * A JavaScript value, as far as truthiness and nullishness tell values
   * apart. Numbers are integers (`-0` is `Number(0)`); every object, array
   * and function is a reference.
   */
  datatype JsValue =
    | Undefined
    | Null
    | Bool(b: bool)
    | Number(n: int)
    | NaN
    | BigInt(i: int)
    | Str(s: string)
    | Reference(id: nat)

  /** JavaScript truthiness: `false`, `0`, `0n`, `""`, `NaN`, `null` and `undefined` are falsy. */
  predicate Truthy(v: JsValue) {
    match v
    case Undefined => false
    case Null => false
    case Bool(b) => b
    case Number(n) => n != 0
    case NaN => false
    case BigInt(i) => i != 0
    case Str(s) => |s| > 0
    case Reference(_) => true
  }

  /** `v == null`: loose equality holds for `null` and `undefined` only. */
  predicate Nullish(v: JsValue) {
    v.Undefined? || v.Null?
  }

  /** A truthy value is never nullish; a falsy one that is not nullish is `false`, zero, `""` or `NaN`. */
  lemma TruthyIsNotNullish(v: JsValue)
    ensures Truthy(v) ==> !Nullish(v)
    ensures !Truthy(v) && !Nullish(v) <==> v == Bool(false) || v == Number(0) || v == BigInt(0) || v == Str("") || v == NaN
  {
  }

  /** The object `pickBy(object)` returns. */
  function Picked(record: map<string, JsValue>): map<string, JsValue> {
    map k | k in record && Truthy(record[k]) :: record[k]
  }

  /**
   * `pickBy(object)`: a `for...in` loop over the keys of `object` that copies
   * each truthy property into a fresh object. The keys are visited in an
   * order the model leaves open; the result does not depend on it.
   */
  method PickBy(record: map<string, JsValue>) returns (obj: map<string, JsValue>)
    ensures forall k :: k in obj <==> k in record && Truthy(record[k])
    ensures forall k :: k in obj ==> obj[k] == record[k]
    ensures obj == Picked(record)
  {
    obj := map[];
    var remaining := record.Keys;
    while remaining != {}
      invariant remaining <= record.Keys
      invariant forall k :: k in obj <==> k in record && k !in remaining && Truthy(record[k])
      invariant forall k :: k in obj ==> obj[k] == record[k]
      decreases remaining
    {
      var key :| key in remaining;
      if Truthy(record[key]) {
        obj := obj[key := record[key]];
      }
      remaining := remaining - {key};
    }
  }

  /**
   * `removeNullProperties(val)`: `filterEntries` with `v != null`, a new
   * object with exactly the properties whose value is neither `null` nor
   * `undefined`, values unchanged.
   */
  function RemoveNullProperties(val: map<string, JsValue>): (r: map<string, JsValue>)
    ensures forall k :: k in r <==> k in val && !Nullish(val[k])
    ensures forall k :: k in r ==> r[k] == val[k]
  {
    map k | k in val && !Nullish(val[k]) :: val[k]
  }

  /**
   * Everything `pickBy` keeps, `removeNullProperties` keeps too; what only
   * `removeNullProperties` keeps are the falsy values that are not nullish.
   */
  lemma PickedWithinNonNull(record: map<string, JsValue>)
    ensures forall k :: k in Picked(record) ==>
      k in RemoveNullProperties(record) && Picked(record)[k] == RemoveNullProperties(record)[k]
    ensures forall k :: k in RemoveNullProperties(record) && k !in Picked(record) <==>
      k in record && !Truthy(record[k]) && !Nullish(record[k])
  {
    forall k | k in record {
      TruthyIsNotNullish(record[k]);
    }
  }

  const Sample: map<string, JsValue> := map[
    "zero" := Number(0), "empty" := Str(""), "no" := Bool(false),
    "none" := Null, "one" := Number(1)
  ]

  /** `0`, `""` and `false` survive `removeNullProperties` but not `pickBy`; `null` survives neither. */
  lemma PickByAndRemoveNullExample()
    ensures Picked(Sample) == map["one" := Number(1)]
    ensures RemoveNullProperties(Sample) ==
      map["zero" := Number(0), "empty" := Str(""), "no" := Bool(false), "one" := Number(1)]
  {
    assert Picked(Sample).Keys == {"one"};
    assert RemoveNullProperties(Sample).Keys == {"zero", "empty", "no", "one"};
  }
}
