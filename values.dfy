/** Python values and dict records as every store of the service holds them. */
module Values {

  /** The field values the stores handle. Floats are not modelled. `Uuid(text)` is a `uuid.UUID`
      whose canonical text is `text`; it never equals the `Str` with the same text. */
  datatype Value = Null | Bool(b: bool) | Int(i: int) | Str(s: string) | Uuid(text: string)

  /** A record: a dict from field name to value. */
  type Record = map<string, Value>

  /** A record identifier, used as a dict key. */
  type Key = Value

  /** Python truthiness (`if v:`). A `uuid.UUID` is always true. */
  predicate Truthy(v: Value)
  {
    match v
    case Null => false
    case Bool(b) => b
    case Int(i) => i != 0
    case Str(s) => s != ""
    case Uuid(_) => true
  }

  /** `r.get(key)`: the field's value, or None when the field is missing. */
  function GetField(r: Record, key: string): Value
  {
    if key in r then r[key] else Null
  }

  function DigitChar(d: nat): char
    requires d < 10
  {
    "0123456789"[d]
  }

  /** The decimal digits of `n`, most significant first. */
  function NatToDecimal(n: nat): (s: string)
    ensures |s| >= 1
    ensures forall i :: 0 <= i < |s| ==> '0' <= s[i] <= '9'
  {
    if n < 10 then [DigitChar(n)] else NatToDecimal(n / 10) + [DigitChar(n % 10)]
  }

  /** `str(v)`. */
  function PyStr(v: Value): string
  {
    match v
    case Null => "None"
    case Bool(b) => if b then "True" else "False"
    case Int(i) => if i < 0 then "-" + NatToDecimal(-i) else NatToDecimal(i)
    case Str(s) => s
    case Uuid(text) => text
  }

  /** `str()` identifies values that Python keeps apart: a missing field (None) and the text "None",
      the integer 1 and the text "1", a UUID and its text. */
  lemma PyStrCollisions(text: string)
    ensures PyStr(Null) == PyStr(Str("None")) && Null != Str("None")
    ensures PyStr(Int(1)) == PyStr(Str("1")) && Int(1) != Str("1")
    ensures PyStr(Uuid(text)) == PyStr(Str(text)) && Uuid(text) != Str(text)
  {
    assert NatToDecimal(1) == "1";
  }

  /** `{**base, **patch}` and `base.update(patch)`: every field of `patch` wins, every other field
      of `base` is kept. */
  function Overlay(base: Record, patch: Record): (r: Record)
    ensures r.Keys == base.Keys + patch.Keys
    ensures forall k :: k in patch ==> r[k] == patch[k]
    ensures forall k :: k in base && k !in patch ==> r[k] == base[k]
  {
    base + patch
  }

  /** `{**current, **patch, "updated_at": now}`: the record an update writes. */
  function MergeStamped(current: Record, patch: Record, now: Value): (r: Record)
    ensures r.Keys == current.Keys + patch.Keys + {"updated_at"}
    ensures r["updated_at"] == now
    ensures forall k :: k in patch && k != "updated_at" ==> r[k] == patch[k]
    ensures forall k :: k in current && k !in patch && k != "updated_at" ==> r[k] == current[k]
  {
    Overlay(Overlay(current, patch), map["updated_at" := now])
  }

  /** The fields of `current`, each replaced by `patch`'s value where `patch` has that field;
      fields `current` does not have are ignored. */
  function MergeKnown(current: Record, patch: Record): (r: Record)
    ensures r.Keys == current.Keys
    ensures forall k :: k in r ==> r[k] == (if k in patch then patch[k] else current[k])
  {
    map k | k in current :: if k in patch then patch[k] else current[k]
  }

  /** `{k: v for k, v in d.items() if v is not None}`. */
  function DropNone(d: Record): (r: Record)
    ensures r.Keys <= d.Keys
    ensures forall k :: k in r ==> r[k] == d[k] && r[k] != Null
    ensures forall k :: k in d && d[k] != Null ==> k in r
  {
    map k | k in d && d[k] != Null :: d[k]
  }

  /** Writing back a record that already holds every field of the stored one replaces it:
      a store that merges the update gives exactly the written record. */
  lemma OverlayCovering(base: Record, patch: Record)
    requires base.Keys <= patch.Keys
    ensures Overlay(base, patch) == patch
  {
  }

  /** The record an update writes covers the current one. */
  lemma MergeStampedCovers(current: Record, patch: Record, now: Value)
    ensures Overlay(current, MergeStamped(current, patch, now)) == MergeStamped(current, patch, now)
  {
    OverlayCovering(current, MergeStamped(current, patch, now));
  }
}
