/**
 * The earlier copy of the match repository (src/repo/PartidaDB.c), where it differs from the
 * maintained one: its partidaDBInsertCommit returns false when sllAdd refuses but reaches the
 * end of the function without a `return` when the append succeeds, so a caller reads no
 * defined result on success. That missing value is `None`.
 */
module EarlyPartidaRepo {
  import opened Wrappers
  import opened LinkedLists
  import opened PartidaRepo

  /**
   * partidaDBInsertCommit as written: the append and journal clearing of the maintained copy,
   * whose body is the same up to the missing `return true`, with `Some(false)` on failure and
   * no result (`None`) on success.
   */
  method InsertCommitAsWritten(db: PartidaDB, memOk: bool) returns (r: Option<bool>)
    requires db.Valid()
    modifies db, ListRepr(db.partidas)
    ensures db.Valid() && db.partidas == old(db.partidas)
    ensures r.None? <==> old(db.partidas) != null && old(db.journal) != null && memOk
    ensures r.Some? ==> r == Some(false)
    ensures r.None? ==> db.journal == null && db.partidas.Contents == old(db.partidas.Contents) + [old(db.journal)]
    ensures r.Some? ==> db.journal == old(db.journal) && (db.partidas != null ==> db.partidas.Contents == old(db.partidas.Contents))
  {
    var ok := db.InsertCommit(memOk);
    r := if ok then None else Some(false);
  }
}
