/**
 * A match (`Partida`): its id, the two teams it refers to and the goals each scored
 * (scripts/src/model/Partida.c, src/model/Partida.c). The id and the team pointers are
 * written only by `newPartida`; the goals have setters.
 */
module PartidaModel {
  import opened Types
  import opened TimeModel

  class Partida {
    const id: int
    const t1: Time?
    const t2: Time?
    var golsT1: int
    var golsT2: int

    constructor (id: int, t1: Time?, t2: Time?, golsT1: int, golsT2: int)
      ensures this.id == id && this.t1 == t1 && this.t2 == t2
      ensures this.golsT1 == golsT1 && this.golsT2 == golsT2
    {
      this.id := id;
      this.t1 := t1;
      this.t2 := t2;
      this.golsT1 := golsT1;
      this.golsT2 := golsT2;
    }
  }

  /** newPartida: a match holding exactly its arguments, or NULL when `malloc` fails (`memOk` false). */
  method NewPartida(id: int, t1: Time?, t2: Time?, golsT1: int, golsT2: int, memOk: bool) returns (p: Partida?)
    ensures p != null <==> memOk
    ensures p != null ==> fresh(p) && GetId(p) == id && GetT1(p) == t1 && GetT2(p) == t2
    ensures p != null ==> GetGolsT1(p) == golsT1 && GetGolsT2(p) == golsT2
  {
    if !memOk {
      return null;
    }
    p := new Partida(id, t1, t2, golsT1, golsT2);
  }

  /** partidaGetId: the id, or -1 for NULL. */
  function GetId(p: Partida?): (r: int)
    ensures p == null ==> r == -1
    ensures p != null ==> r == p.id
  {
    if p == null then -1 else p.id
  }

  /** partidaGetT1: the home team, or NULL. */
  function GetT1(p: Partida?): (r: Time?)
    ensures p == null ==> r == null
    ensures p != null ==> r == p.t1
  {
    if p == null then null else p.t1
  }

  /** partidaGetT2: the visiting team, or NULL. */
  function GetT2(p: Partida?): (r: Time?)
    ensures p == null ==> r == null
    ensures p != null ==> r == p.t2
  {
    if p == null then null else p.t2
  }

  /** partidaGetGolsT1: the home team's goals, or -1 for NULL. */
  function GetGolsT1(p: Partida?): (r: int)
    reads p
    ensures p == null ==> r == -1
    ensures p != null ==> r == p.golsT1
  {
    if p == null then -1 else p.golsT1
  }

  /** partidaGetGolsT2: the visiting team's goals, or -1 for NULL. */
  function GetGolsT2(p: Partida?): (r: int)
    reads p
    ensures p == null ==> r == -1
    ensures p != null ==> r == p.golsT2
  {
    if p == null then -1 else p.golsT2
  }

  /** partidaSetGolsT1: refuses a NULL match and a negative count; otherwise sets the home goals alone. */
  method SetGolsT1(p: Partida?, gols: int) returns (ok: bool)
    modifies p
    ensures ok <==> p != null && 0 <= gols
    ensures ok ==> GetGolsT1(p) == gols && p.golsT2 == old(p.golsT2)
    ensures p != null && !ok ==> unchanged(p)
  {
    if p == null || gols < 0 {
      return false;
    }
    p.golsT1 := gols;
    return true;
  }

  /** partidaSetGolsT2: refuses a NULL match and a negative count; otherwise sets the visiting goals alone. */
  method SetGolsT2(p: Partida?, gols: int) returns (ok: bool)
    modifies p
    ensures ok <==> p != null && 0 <= gols
    ensures ok ==> GetGolsT2(p) == gols && p.golsT1 == old(p.golsT1)
    ensures p != null && !ok ==> unchanged(p)
  {
    if p == null || gols < 0 {
      return false;
    }
    p.golsT2 := gols;
    return true;
  }
}
