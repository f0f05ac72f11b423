/**
 * The backing key-value store, reduced to the Redis commands the cache
 * issues: GET, SET with an expiry, HSET, EXPIRE and DEL. Time is a logical
 * clock in minutes; an expired key behaves exactly like a missing one.
 */
module Store {
  import opened Wrappers

  /** A string value or a hash (field-map). */
  datatype Value = Str(s: string) | Hash(fields: map<string, string>)

  /** When a key expires: never (no TTL set), or at a clock reading. */
  datatype Expiry = Never | At(time: int)

  datatype Entry = Entry(value: Value, expiry: Expiry)

  type Store = map<string, Entry>

  /**
   * The errors an operation on the store can end in: the server's WRONGTYPE
   * reply, and the client-side InvalidCastException of reading a stored value
   * as an integer when it is not one (no command here raises the latter).
   */
  datatype Error =
    | WrongType      // a string command on a hash, or a hash command on a string
    | NotAnInteger   // the `(long)` cast of a stored value that is not an integer

  /** One (field, value) pair of an HSET, as StackExchange.Redis' HashEntry. */
  datatype HashEntry = HashEntry(name: string, value: string)

  /** Every key other than `k` is as it was. */
  ghost predicate SameExcept(st: Store, st': Store, k: string) {
    forall k' :: k' != k ==> (k' in st' <==> k' in st) && (k' in st ==> st'[k'] == st[k'])
  }

  /** No two pairs of the list share a field name. */
  predicate DistinctEntryNames(entries: seq<HashEntry>) {
    forall i, j :: 0 <= i < j < |entries| ==> entries[i].name != entries[j].name
  }

  predicate LiveEntry(e: Entry, now: int) {
    e.expiry.Never? || e.expiry.time > now
  }

  /** The key exists and has not expired at `now`. */
  predicate Live(st: Store, k: string, now: int) {
    k in st && LiveEntry(st[k], now)
  }

  /** GET: the string under a live key; a hash is the wrong type. */
  function StringGet(st: Store, k: string, now: int): (r: Result<Option<string>, Error>)
    ensures r == Success(None) <==> !Live(st, k, now)
    ensures r.Failure? <==> Live(st, k, now) && st[k].value.Hash?
    ensures forall v :: r == Success(Some(v)) <==> Live(st, k, now) && st[k].value == Str(v)
  {
    if !Live(st, k, now) then Success(None)
    else match st[k].value
      case Str(v) => Success(Some(v))
      case Hash(_) => Failure(WrongType)
  }

  /** SET key value EX ttl: overwrites whatever the key held, of any type. */
  function StringSet(st: Store, k: string, v: string, ttl: nat, now: int): (r: Store)
    requires ttl > 0
    ensures k in r && r[k] == Entry(Str(v), At(now + ttl))
    ensures Live(r, k, now)
    ensures SameExcept(st, r, k)
  {
    st[k := Entry(Str(v), At(now + ttl))]
  }

  /** The fields after applying HSET's pairs in order: a later pair for a field overrides an earlier one. */
  function PutFields(fields: map<string, string>, entries: seq<HashEntry>): (r: map<string, string>)
    ensures forall f :: f in r <==> f in fields || exists i :: 0 <= i < |entries| && entries[i].name == f
    decreases |entries|
  {
    if |entries| == 0 then fields
    else
      var r := PutFields(fields[entries[0].name := entries[0].value], entries[1..]);
      assert forall i :: 0 <= i < |entries| - 1 ==> entries[1..][i] == entries[i + 1];
      r
  }

  /**
   * HSET key field value ...: upserts the pairs into the hash under the key,
   * creating a hash without expiry when the key is absent; existing fields not
   * named are kept and an existing TTL is untouched. An empty list of pairs is
   * not sent at all, so it changes nothing.
   */
  function HashSet(st: Store, k: string, entries: seq<HashEntry>, now: int): (r: Result<Store, Error>)
    ensures r.Failure? <==> |entries| > 0 && Live(st, k, now) && st[k].value.Str?
    ensures r.Success? && |entries| > 0 ==> k in r.value && r.value[k].value.Hash? && Live(r.value, k, now)
    ensures r.Success? && |entries| > 0 ==>
              r.value[k] == if Live(st, k, now) then Entry(Hash(PutFields(st[k].value.fields, entries)), st[k].expiry)
                            else Entry(Hash(PutFields(map[], entries)), Never)
    ensures r.Success? ==> SameExcept(st, r.value, k)
    ensures |entries| == 0 ==> r == Success(st)
  {
    if |entries| == 0 then Success(st)
    else if !Live(st, k, now) then Success(st[k := Entry(Hash(PutFields(map[], entries)), Never)])
    else match st[k].value
      case Str(_) => Failure(WrongType)
      case Hash(fields) => Success(st[k := Entry(Hash(PutFields(fields, entries)), st[k].expiry)])
  }

  /** EXPIRE key ttl: resets the TTL of a live key; a missing or expired key is left alone. */
  function KeyExpire(st: Store, k: string, ttl: nat, now: int): (r: Store)
    requires ttl > 0
    ensures Live(st, k, now) ==> k in r && r[k] == st[k].(expiry := At(now + ttl))
    ensures !Live(st, k, now) ==> r == st
    ensures SameExcept(st, r, k)
  {
    if Live(st, k, now) then st[k := st[k].(expiry := At(now + ttl))] else st
  }

  /** DEL key: removes the key, whatever it holds; deleting a missing key does nothing. */
  function KeyDelete(st: Store, k: string): (r: Store)
    ensures k !in r
    ensures SameExcept(st, r, k)
  {
    st - {k}
  }

  /** After HSET of pairs with distinct names, every named field holds its pair's value. */
  lemma {:induction false} PutFieldsStores(fields: map<string, string>, entries: seq<HashEntry>)
    requires DistinctEntryNames(entries)
    ensures forall i :: 0 <= i < |entries| ==>
              && entries[i].name in PutFields(fields, entries)
              && PutFields(fields, entries)[entries[i].name] == entries[i].value
    ensures forall f :: (f in fields && forall i :: 0 <= i < |entries| ==> entries[i].name != f) ==>
              PutFields(fields, entries)[f] == fields[f]
    decreases |entries|
  {
    if |entries| > 0 {
      var fields' := fields[entries[0].name := entries[0].value];
      var rest := entries[1..];
      PutFieldsStores(fields', rest);
      assert forall i :: 0 <= i < |rest| ==> rest[i] == entries[i + 1];
      forall i | 0 <= i < |entries|
        ensures PutFields(fields, entries)[entries[i].name] == entries[i].value
      {
        if i == 0 {
          assert forall j :: 0 <= j < |rest| ==> rest[j].name != entries[0].name;
          assert PutFields(fields', rest)[entries[0].name] == fields'[entries[0].name];
        } else {
          assert entries[i] == rest[i - 1];
        }
      }
      forall f | f in fields && (forall i :: 0 <= i < |entries| ==> entries[i].name != f)
        ensures PutFields(fields, entries)[f] == fields[f]
      {
        assert forall i :: 0 <= i < |rest| ==> rest[i].name != f;
      }
    }
  }
}
