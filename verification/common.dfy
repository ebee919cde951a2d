/**
 Shared vocabulary of the model: optional values, the handlers' reply
 shape (an HTTP status with a payload or with an error), and two small
 sequence helpers used by every collection of the record store.
 */
module Common {

  /** An optional value: a request-body key that may be absent, or a lookup that may miss. */
  datatype Option<+T> = None | Some(value: T)

  /** The errors a handler reports. `Message` carries the handler's own fixed text;
      the others stand for errors raised by the document library, whose exact
      wording is not modelled. */
  datatype Error =
    | Message(text: string)
      /** a schema validation failure naming the required paths that are missing */
    | RequiredMissing(model: string, paths: seq<string>)
      /** a value that could not be cast to the path's schema type */
    | CastFailed(path: string)
      /** the password hasher reported an error, so the save was aborted */
    | HashFailed

  /** A handler's answer: a success status with a body, or an error status with its error. */
  datatype Reply<+T> = Ok(status: nat, body: T) | Fail(status: nat, error: Error)

  const OK: nat := 200
  const CREATED: nat := 201
  const BAD_REQUEST: nat := 400
  const NOT_FOUND: nat := 404

  /** A string field satisfies the schema's `required` rule: present and non-empty. */
  predicate Filled(o: Option<string>) {
    o.Some? && |o.value| > 0
  }

  /** The position of the first element satisfying `matches`, if any. */
  function IndexOf<T>(s: seq<T>, matches: T -> bool): (r: Option<nat>)
    ensures r.Some? ==> r.value < |s| && matches(s[r.value])
    ensures r.Some? ==> forall j :: 0 <= j < r.value ==> !matches(s[j])
    ensures r.None? ==> forall j :: 0 <= j < |s| ==> !matches(s[j])
  {
    if |s| == 0 then None
    else if matches(s[0]) then Some(0)
    else
      match IndexOf(s[1..], matches)
      case None => None
      case Some(i) => Some(i + 1)
  }

  /** `s` without its element at position `i`; the others keep their order. */
  function RemoveAt<T>(s: seq<T>, i: nat): (r: seq<T>)
    requires i < |s|
    ensures |r| == |s| - 1
    ensures forall j :: 0 <= j < i ==> r[j] == s[j]
    ensures forall j :: i <= j < |r| ==> r[j] == s[j + 1]
    ensures multiset(r) + multiset{s[i]} == multiset(s)
    ensures forall j :: 0 <= j < |s| && j != i ==> s[j] in r
  {
    assert s == s[..i] + [s[i]] + s[i + 1..];
    s[..i] + s[i + 1..]
  }

  /** Removing an element keeps a key that was distinct across `s` distinct. */
  lemma DistinctAfterRemove<T, K>(s: seq<T>, key: T -> K, i: nat)
    requires i < |s|
    requires forall a, b :: 0 <= a < b < |s| ==> key(s[a]) != key(s[b])
    ensures forall a, b :: 0 <= a < b < |s| - 1 ==> key(RemoveAt(s, i)[a]) != key(RemoveAt(s, i)[b])
  {
    var r := RemoveAt(s, i);
    forall a, b | 0 <= a < b < |r|
      ensures key(r[a]) != key(r[b])
    {
      var a' := if a < i then a else a + 1;
      var b' := if b < i then b else b + 1;
      assert r[a] == s[a'] && r[b] == s[b'] && a' < b';
    }
  }
}
