/**
 * The move codec of src/GameTypes.hpp: the three hand shapes and their
 * one-letter wire tokens.
 */
module Moves {
  import opened Wrappers

  /** MoveType; NoMove stands for MoveType::NONE, the empty slot. */
  datatype MoveType = NoMove | Rock | Paper | Scissors

  /** move_to_string: the wire token of a move, "" for the empty slot. */
  function MoveToString(m: MoveType): (s: string)
    ensures s == "" <==> m == NoMove
    ensures m != NoMove ==> |s| == 1 && s[0] == Letter(m)
  {
    match m
    case Rock => "R"
    case Paper => "P"
    case Scissors => "S"
    case NoMove => ""
  }

  /** The initial letter of a move's name; an independent description of the tokens. */
  function Letter(m: MoveType): char
    requires m != NoMove
  {
    match m
    case Rock => 'R'
    case Paper => 'P'
    case Scissors => 'S'
  }

  /**
   * string_to_move: Some(m) where the source assigns its out-parameter and
   * returns true; None where it returns false and leaves the out-parameter alone.
   */
  function StringToMove(s: string): (r: Option<MoveType>)
    ensures r.Some? <==> s == "R" || s == "P" || s == "S"
    ensures r != Some(NoMove)
  {
    if s == "R" then Some(Rock)
    else if s == "P" then Some(Paper)
    else if s == "S" then Some(Scissors)
    else None
  }

  /** Every real move survives encoding and decoding. */
  lemma MoveRoundTrip(m: MoveType)
    requires m != NoMove
    ensures StringToMove(MoveToString(m)) == Some(m)
  {
  }

  /** Every token that decodes is the encoding of what it decodes to. */
  lemma TokenRoundTrip(s: string)
    requires StringToMove(s).Some?
    ensures MoveToString(StringToMove(s).value) == s
  {
  }

  /** The empty slot has no token: its encoding "" never decodes. */
  lemma EmptySlotHasNoToken()
    ensures StringToMove(MoveToString(NoMove)) == None
  {
  }
}
