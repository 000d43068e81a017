/**
  Choosing the target site's error table and its total weight, as `main` of
  the historical-errors scheduler does after reading the JSON file: a copy of
  the site's code -> count map (empty, with a "Site not found" notice, when
  the site is absent) and the sum of its counts.
 */
module Sites {
  import opened MapSums

  /** The JSON file once read: site (queue) name -> error code -> historical count. */
  type ErrorTable = map<string, map<string, int>>

  /** The error codes of `queue`, or none when the table has no such site. */
  function SiteCodes(table: ErrorTable, queue: string): map<string, int> {
    if queue in table then table[queue] else map[]
  }

  /** The copy loop into `error_codes`; `found` is false where the source prints "Site not found". */
  method SelectSite(table: ErrorTable, queue: string) returns (codes: map<string, int>, found: bool)
    ensures found <==> queue in table
    ensures codes == SiteCodes(table, queue)
    ensures !found ==> codes == map[]
  {
    codes := map[];
    found := queue in table;
    if found {
      var site := table[queue];
      var pending := site.Keys;
      while pending != {}
        invariant pending <= site.Keys
        invariant codes.Keys == site.Keys - pending
        invariant forall c :: c in codes ==> codes[c] == site[c]
        decreases |pending|
      {
        var c :| c in pending;
        codes := codes[c := site[c]];
        pending := pending - {c};
      }
    }
  }

  /** The accumulating loop that computes `total_weight`. */
  method TotalWeight(codes: map<string, int>) returns (total: int)
    ensures total == MapSum(codes)
  {
    total := 0;
    var pending := codes;
    while pending != map[]
      invariant total + MapSum(pending) == MapSum(codes)
      decreases |pending|
    {
      var c :| c in pending;
      MapSumRemove(pending, c);
      total := total + pending[c];
      pending := pending - {c};
    }
  }

  /**
    An absent site weighs nothing; a present one weighs the sum of its counts,
    which, for non-negative counts, is zero exactly when every count is zero.
   */
  lemma SiteWeight(table: ErrorTable, queue: string)
    ensures queue !in table ==> MapSum(SiteCodes(table, queue)) == 0
    ensures queue in table ==> MapSum(SiteCodes(table, queue)) == MapSum(table[queue])
    ensures (forall c :: c in SiteCodes(table, queue) ==> SiteCodes(table, queue)[c] >= 0) ==>
      && MapSum(SiteCodes(table, queue)) >= 0
      && (MapSum(SiteCodes(table, queue)) == 0 <==>
            forall c :: c in SiteCodes(table, queue) ==> SiteCodes(table, queue)[c] == 0)
  {
    var codes := SiteCodes(table, queue);
    if forall c :: c in codes ==> codes[c] >= 0 {
      MapSumNonNegative(codes);
      MapSumZeroIff(codes);
    }
  }
}
