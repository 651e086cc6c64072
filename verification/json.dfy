/** The JSON values stored in the per-listing `data.json` files, and a record
    (JSON object) as Python's `json.load` returns it: a `dict` whose keys keep
    their insertion order.
 */
module Json {
  import opened Results
  import opened Text

  /** A scalar JSON value. A floating-point number is carried as the text
      Python prints for it (`repr`), since no arithmetic is done on it here. */
  datatype Value =
    | Null
    | Bool(b: bool)
    | Int(i: int)
    | Float(repr: string)
    | Str(s: string)

  /** `str(value)` in Python. */
  function Show(v: Value): string
  {
    match v
    case Null => "None"
    case Bool(b) => if b then "True" else "False"
    case Int(i) => IntToString(i)
    case Float(repr) => repr
    case Str(s) => s
  }

  /** The JSON value of an optional integer field (`None` is JSON null). */
  function OfOptInt(o: Option<int>): (v: Value)
    ensures o.None? <==> v == Null
    ensures o.Some? ==> v == Int(o.value)
  {
    match o
    case Some(i) => Int(i)
    case None => Null
  }

  /** The JSON value of an optional string field. */
  function OfOptStr(o: Option<string>): (v: Value)
    ensures o.None? <==> v == Null
    ensures o.Some? ==> v == Str(o.value)
  {
    match o
    case Some(s) => Str(s)
    case None => Null
  }

  type Entry = (string, Value)

  /** A JSON object: its entries in insertion order. */
  type Record = seq<Entry>

  /** What a Python dict guarantees: no key occurs twice. */
  predicate DistinctKeys(r: Record) {
    forall i, j :: 0 <= i < j < |r| ==> r[i].0 != r[j].0
  }

  /** `list(d.keys())`. */
  function Keys(r: Record): (ks: seq<string>)
    ensures |ks| == |r|
    ensures forall i :: 0 <= i < |r| ==> ks[i] == r[i].0
  {
    seq(|r|, i requires 0 <= i < |r| => r[i].0)
  }

  /** `list(d.values())`. */
  function Values(r: Record): (vs: seq<Value>)
    ensures |vs| == |r|
    ensures forall i :: 0 <= i < |r| ==> vs[i] == r[i].1
  {
    seq(|r|, i requires 0 <= i < |r| => r[i].1)
  }

  /** `key in d`. */
  predicate HasKey(r: Record, key: string) {
    exists i :: 0 <= i < |r| && r[i].0 == key
  }

  /** The position of the first entry stored under `key`, if any. */
  function IndexOf(r: Record, key: string): (o: Option<nat>)
    ensures o.Some? ==> o.value < |r| && r[o.value].0 == key
    ensures o.Some? ==> forall j :: 0 <= j < o.value ==> r[j].0 != key
    ensures o.None? ==> forall j :: 0 <= j < |r| ==> r[j].0 != key
  {
    if |r| == 0 then None
    else if r[0].0 == key then Some(0)
    else
      match IndexOf(r[1..], key)
      case Some(i) => Some(i + 1)
      case None => None
  }

  /** `d.get(key)`: the value stored under `key`, if any. */
  function Get(r: Record, key: string): (o: Option<Value>)
    ensures o.Some? <==> HasKey(r, key)
    ensures o.Some? ==> exists i :: 0 <= i < |r| && r[i] == (key, o.value)
  {
    match IndexOf(r, key)
    case Some(i) => Some(r[i].1)
    case None => None
  }

  /** In a record with distinct keys, `Get` finds the entry at any index. */
  lemma GetAt(r: Record, i: int)
    requires DistinctKeys(r)
    requires 0 <= i < |r|
    ensures Get(r, r[i].0) == Some(r[i].1)
  {
    var o := IndexOf(r, r[i].0);
    assert o.Some?;
    assert o.value == i;
  }

  /** `d[key] = value`: an existing key keeps its position and takes the new
      value; a new key is appended at the end. */
  function Put(r: Record, key: string, value: Value): (r': Record)
    ensures HasKey(r, key) ==> Keys(r') == Keys(r)
    ensures !HasKey(r, key) ==> Keys(r') == Keys(r) + [key]
    ensures Get(r', key) == Some(value)
    ensures forall k :: k != key ==> Get(r', k) == Get(r, k)
    ensures DistinctKeys(r) ==> DistinctKeys(r')
  {
    match IndexOf(r, key)
    case Some(i) =>
      var r' := r[i := (key, value)];
      assert IndexOf(r', key) == Some(i) by { PutIndex(r, key, value, i); }
      assert forall k :: k != key ==> IndexOf(r', k) == IndexOf(r, k) by {
        forall k | k != key ensures IndexOf(r', k) == IndexOf(r, k) {
          PutKeepsIndex(r, r', i, key, k);
        }
      }
      r'
    case None =>
      var r' := r + [(key, value)];
      assert IndexOf(r', key) == Some(|r|) by {
        assert r'[|r|].0 == key;
        assert forall j :: 0 <= j < |r| ==> r'[j] == r[j];
      }
      assert forall k :: k != key ==> IndexOf(r', k) == IndexOf(r, k) by {
        forall k | k != key ensures IndexOf(r', k) == IndexOf(r, k) {
          assert forall j :: 0 <= j < |r| ==> r'[j] == r[j];
          if IndexOf(r, k).Some? {
            IndexOfUnique(r', k, IndexOf(r, k).value);
          }
        }
      }
      assert !HasKey(r, key);
      r'
  }

  lemma PutIndex(r: Record, key: string, value: Value, i: nat)
    requires IndexOf(r, key) == Some(i)
    ensures IndexOf(r[i := (key, value)], key) == Some(i)
  {
    IndexOfUnique(r[i := (key, value)], key, i);
  }

  lemma PutKeepsIndex(r: Record, r': Record, i: nat, key: string, k: string)
    requires i < |r| && r[i].0 == key && k != key
    requires |r'| == |r| && r'[i].0 == key
    requires forall j :: 0 <= j < |r| && j != i ==> r'[j] == r[j]
    ensures IndexOf(r', k) == IndexOf(r, k)
  {
    match IndexOf(r, k)
    case Some(j) => IndexOfUnique(r', k, j);
    case None =>
  }

  /** The first position holding `key` is what `IndexOf` reports. */
  lemma IndexOfUnique(r: Record, key: string, i: nat)
    requires i < |r| && r[i].0 == key
    requires forall j :: 0 <= j < i ==> r[j].0 != key
    ensures IndexOf(r, key) == Some(i)
  {
  }

  /** The entries whose key is in `keep`, in their original order. */
  function Retain(r: Record, keep: set<string>): (r': Record)
    ensures forall i :: 0 <= i < |r'| ==> r'[i].0 in keep
    ensures |r'| <= |r|
  {
    if |r| == 0 then []
    else if r[0].0 in keep then [r[0]] + Retain(r[1..], keep)
    else Retain(r[1..], keep)
  }
}
