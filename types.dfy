/**
 * Constants and enumerations shared by the model, the repositories and the views
 * (scripts/inc/service/model.h, scripts/inc/service/repo.h, scripts/shared/types.h).
 */
module Types {

  /** Size of the character array that holds a team name, terminator included. */
  const TIME_MAX_NAME_SIZE: int := 11

  /** Value the id getters return for a NULL team or match. */
  const TIME_NOT_FOUND_FLAG: int := -1

  /** The C string terminator. */
  const NUL: char := '\0'

  /** A `char[TIME_MAX_NAME_SIZE]` array, stored by value inside its struct. */
  type NameBuf = s: seq<char> | |s| == TIME_MAX_NAME_SIZE witness seq(TIME_MAX_NAME_SIZE, _ => NUL)

  /** The result of a comparison callback. */
  datatype Order = LessThan | Equal | GreaterThan

  /** The integer each `Order` constant has in the C enumeration. */
  function OrderValue(o: Order): (v: int)
    ensures -1 <= v <= 1
    ensures (v < 0 <==> o == LessThan) && (v == 0 <==> o == Equal) && (v > 0 <==> o == GreaterThan)
  {
    match o
    case LessThan => -1
    case Equal => 0
    case GreaterThan => 1
  }

  /** The status `addPartida` returns, in the order of the C enumeration. */
  datatype AddPartidaResponse =
    | PartidaDatabaseNotStartedYet
    | AnotherTransactionNotClose
    | MemoryNotEnoughException
    | Time1EqualsTime2
    | Time1DoesNotExists
    | Time2DoesNotExists
    | Success
}
