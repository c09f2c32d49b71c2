/**
 * The MongoDB collections the pipeline reads and writes (`phone_records`
 * and `Embeddings` in database `CallAnalysis`), reduced to what the
 * pipeline relies on: a collection is an ordered sequence of documents,
 * `update_one` touches the first document that matches its filter,
 * `upsert` appends one new document when none matches, and `insert_one`
 * appends. Documents map field names to JSON-like values.
 */
module Store {
  import opened Wrappers

  datatype Value =
    | Null
    | Bool(b: bool)
    | Num(n: int)
    | Str(s: string)
    | Arr(items: seq<Value>)
    | Obj(fields: map<string, Value>)

  type Doc = map<string, Value>

  /**
   * MongoDB's equality condition on one field: the field holds the value,
   * or holds an array with the value among its items; `null` also
   * matches a field that is missing.
   */
  predicate FieldMatches(d: Doc, k: string, v: Value) {
    if k in d then d[k] == v || (d[k].Arr? && v in d[k].items)
    else v == Null
  }

  /** An equality filter: every field of the filter matches in d. */
  predicate Matches(d: Doc, filter: Doc) {
    forall k :: k in filter ==> FieldMatches(d, k, filter[k])
  }

  /** A filter field that does not match rules the whole filter out. */
  lemma FieldMismatch(d: Doc, filter: Doc, k: string)
    requires k in filter && !FieldMatches(d, k, filter[k])
    ensures !Matches(d, filter)
  {
  }

  /** The position of the first document at or after k that matches filter. */
  function FirstMatchFrom(docs: seq<Doc>, filter: Doc, k: nat): (r: Option<nat>)
    requires k <= |docs|
    ensures r.Some? ==> k <= r.value < |docs| && Matches(docs[r.value], filter)
    ensures r.Some? ==> forall j :: k <= j < r.value ==> !Matches(docs[j], filter)
    ensures r.None? ==> forall j :: k <= j < |docs| ==> !Matches(docs[j], filter)
    decreases |docs| - k
  {
    if k == |docs| then None
    else if Matches(docs[k], filter) then Some(k)
    else FirstMatchFrom(docs, filter, k + 1)
  }

  /** The document `update_one` and `find_one` pick: the first that matches. */
  function FirstMatch(docs: seq<Doc>, filter: Doc): (r: Option<nat>)
    ensures r.Some? ==> r.value < |docs| && Matches(docs[r.value], filter)
    ensures r.Some? ==> forall j :: 0 <= j < r.value ==> !Matches(docs[j], filter)
    ensures r.None? <==> forall j :: 0 <= j < |docs| ==> !Matches(docs[j], filter)
  {
    FirstMatchFrom(docs, filter, 0)
  }

  /** The collection after `update_one(filter, {"$set": fields}, upsert=upsert)`. */
  function Updated(docs: seq<Doc>, filter: Doc, fields: Doc, upsert: bool): (r: seq<Doc>)
    ensures FirstMatch(docs, filter).Some? ==> |r| == |docs|
    ensures FirstMatch(docs, filter).None? ==> r == if upsert then docs + [filter + fields] else docs
  {
    match FirstMatch(docs, filter)
    case Some(i) => docs[i := docs[i] + fields]
    case None => if upsert then docs + [filter + fields] else docs
  }

  /** `update_one` changes only the first matching document, and only the fields it sets. */
  lemma UpdatedChangesFirstMatchOnly(docs: seq<Doc>, filter: Doc, fields: Doc, upsert: bool, i: nat)
    requires FirstMatch(docs, filter) == Some(i)
    ensures |Updated(docs, filter, fields, upsert)| == |docs|
    ensures forall j :: 0 <= j < |docs| && j != i ==> Updated(docs, filter, fields, upsert)[j] == docs[j]
    ensures Updated(docs, filter, fields, upsert)[i].Keys == docs[i].Keys + fields.Keys
    ensures forall k :: k in fields ==> Updated(docs, filter, fields, upsert)[i][k] == fields[k]
    ensures forall k :: k in docs[i] && k !in fields ==> Updated(docs, filter, fields, upsert)[i][k] == docs[i][k]
  {
  }

  class Collection {
    var docs: seq<Doc>

    constructor (initial: seq<Doc>)
      ensures docs == initial
    {
      docs := initial;
    }

    /** `update_one(filter, {"$set": fields}, upsert=upsert)`, returning `matched_count`. */
    method UpdateOne(filter: Doc, fields: Doc, upsert: bool) returns (matched: nat)
      modifies this
      ensures docs == Updated(old(docs), filter, fields, upsert)
      ensures matched == if FirstMatch(old(docs), filter).Some? then 1 else 0
    {
      var found := FirstMatch(docs, filter);
      docs := Updated(docs, filter, fields, upsert);
      matched := if found.Some? then 1 else 0;
    }

    /** `insert_one(d)`. */
    method InsertOne(d: Doc)
      modifies this
      ensures docs == old(docs) + [d]
    {
      docs := docs + [d];
    }

    /** `find_one(filter)`: the first matching document, if any. */
    method FindOne(filter: Doc) returns (r: Option<Doc>)
      ensures r.Some? <==> exists j :: 0 <= j < |docs| && Matches(docs[j], filter)
      ensures r.Some? ==> Matches(r.value, filter)
      ensures r.Some? ==> exists j :: 0 <= j < |docs| && r.value == docs[j] && forall i :: 0 <= i < j ==> !Matches(docs[i], filter)
    {
      var k := 0;
      while k < |docs|
        invariant k <= |docs|
        invariant forall j :: 0 <= j < k ==> !Matches(docs[j], filter)
      {
        if Matches(docs[k], filter) {
          return Some(docs[k]);
        }
        k := k + 1;
      }
      return None;
    }
  }
}
