/**
 * The in-memory store of the URL shortener (url-shortener/app/models.py):
 * a dictionary from short code to a record of the URL, its creation time
 * and its click count, updated in place. The dictionary's key order (the
 * order `list(self._store.keys())` yields, which is insertion order) is kept
 * beside the map. The creation time is the caller's `datetime` string.
 */
module UrlStore {
  import opened Wrappers
  import opened Seqs

  /** One value of `_store`: `{'url', 'created_at', 'clicks'}`. */
  datatype UrlRecord = UrlRecord(url: string, createdAt: string, clicks: nat)

  class URLStore {
    /** `self._store`, by short code. */
    var records: map<string, UrlRecord>
    /** The keys of `_store` in insertion order. */
    var order: seq<string>

    /** The key order lists every stored code exactly once. */
    ghost predicate Valid()
      reads this
    {
      Distinct(order) && forall c :: c in order <==> c in records
    }

    /** `__init__` (models.py:11-12): an empty store. */
    constructor ()
      ensures Valid()
      ensures records == map[] && order == []
    {
      records := map[];
      order := [];
    }

    /** store_url (models.py:14-19): the code maps to a fresh record with
        zero clicks, replacing any earlier record of that code; an existing
        key keeps its place in the order, a new one goes last. */
    method StoreUrl(code: string, url: string, createdAt: string)
      requires Valid()
      modifies this
      ensures Valid()
      ensures records == old(records)[code := UrlRecord(url, createdAt, 0)]
      ensures order == if code in old(records) then old(order) else old(order) + [code]
      ensures GetUrl(code) == Some(UrlRecord(url, createdAt, 0))
      ensures forall c :: c != code ==> GetUrl(c) == old(GetUrl(c))
    {
      if code !in records {
        DistinctSnoc(order, code);
        order := order + [code];
      }
      records := records[code := UrlRecord(url, createdAt, 0)];
    }

    /** get_url (models.py:22-23): `dict.get`, `None` for an absent code. */
    function GetUrl(code: string): (r: Option<UrlRecord>)
      reads this
      ensures r.None? <==> code !in records
      ensures r.Some? ==> r.value == records[code]
    {
      if code in records then Some(records[code]) else None
    }

    /** increment_clicks (models.py:25-27): one more click for a stored
        code; nothing changes for an absent one. */
    method IncrementClicks(code: string)
      requires Valid()
      modifies this
      ensures Valid()
      ensures order == old(order)
      ensures code in old(records) ==>
                records == old(records)[code := old(records)[code].(clicks := old(records)[code].clicks + 1)]
      ensures code !in old(records) ==> records == old(records)
      ensures forall c :: GetUrl(c).Some? <==> old(GetUrl(c)).Some?
      ensures forall c :: c in records ==> records[c].url == old(records)[c].url
    {
      if code in records {
        var rec := records[code];
        records := records[code := rec.(clicks := rec.clicks + 1)];
      }
    }

    /** get_all_codes (models.py:29-30): every stored code once, in insertion order. */
    function GetAllCodes(): (codes: seq<string>)
      reads this
      requires Valid()
      ensures codes == order
      ensures Distinct(codes)
      ensures forall c :: c in codes <==> c in records
      ensures |codes| == |records|
    {
      CodesCardinality(order, records);
      order
    }

    /** clear (models.py:32-33): the store is empty. */
    method Clear()
      requires Valid()
      modifies this
      ensures Valid()
      ensures records == map[] && order == []
    {
      records := map[];
      order := [];
    }
  }

  /** Appending an element that does not occur keeps a sequence repetition-free. */
  lemma DistinctSnoc(s: seq<string>, x: string)
    requires Distinct(s) && x !in s
    ensures Distinct(s + [x])
  {
    forall i, j | 0 <= i < j < |s + [x]| ensures (s + [x])[i] != (s + [x])[j] {
      if j == |s| {
        assert (s + [x])[i] == s[i];
      } else {
        assert (s + [x])[i] == s[i] && (s + [x])[j] == s[j];
      }
    }
  }

  /** A repetition-free listing of a map's keys has as many entries as the map. */
  lemma CodesCardinality(order: seq<string>, records: map<string, UrlRecord>)
    requires Distinct(order) && forall c :: c in order <==> c in records
    ensures |order| == |records|
  {
    DistinctCardinality(order);
    assert (set c | c in order) == records.Keys;
  }
}
