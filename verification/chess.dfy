/** The vocabulary of the game the engine reads: colours, piece kinds, squares,
    the 64-square board and the moves the rules engine enumerates. */
module Chess {
  import opened Options

  datatype Color = White | Black

  function Opponent(c: Color): Color
  {
    match c
    case White => Black
    case Black => White
  }

  datatype Kind = Pawn | Knight | Bishop | Rook | Queen | King

  datatype Piece = Piece(color: Color, kind: Kind)

  /** Squares are numbered 0..63, a1 = 0, b1 = 1, ..., h8 = 63. */
  type Square = s: int | 0 <= s < 64

  /** The occupancy of every square, indexed by square number. */
  type Board = b: seq<Option<Piece>> | |b| == 64 witness seq(64, _ => None)

  /** The rank (row) of a square, 0 for White's back rank and 7 for Black's. */
  function Rank(s: Square): int
  {
    s / 8
  }

  /** A move from one square to another, with the piece kind a pawn promotes to. */
  datatype Move = Move(from: Square, to: Square, promotion: Option<Kind>)

  /** The fixed material value of each piece kind. */
  function Value(k: Kind): nat
  {
    match k
    case Pawn => 1
    case Knight => 3
    case Bishop => 3
    case Rook => 5
    case Queen => 9
    case King => 1000
  }
}
