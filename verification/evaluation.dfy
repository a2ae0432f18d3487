/** Static material evaluation of a board from one colour's point of view. */
module Evaluation {
  import opened Options
  import opened Chess

  /** What one square adds to the score seen by `c`: the piece's value if it is
      `c`'s, minus the value if it is the opponent's, nothing if empty. */
  function Contribution(sq: Option<Piece>, c: Color): int
  {
    match sq
    case None => 0
    case Some(pc) => if pc.color == c then Value(pc.kind) as int else -(Value(pc.kind) as int)
  }

  /** The score of a run of squares, summed square by square in board order. */
  function Material(s: seq<Option<Piece>>, c: Color): int
  {
    if |s| == 0 then 0 else Material(s[..|s| - 1], c) + Contribution(s[|s| - 1], c)
  }

  /** The combined value of the pieces of colour `c` alone. */
  function Total(s: seq<Option<Piece>>, c: Color): nat
  {
    if |s| == 0 then 0
    else
      Total(s[..|s| - 1], c) +
        match s[|s| - 1]
        case Some(pc) => if pc.color == c then Value(pc.kind) else 0
        case None => 0
  }

  /** The number of kings of colour `c`. */
  function Kings(s: seq<Option<Piece>>, c: Color): nat
  {
    if |s| == 0 then 0
    else Kings(s[..|s| - 1], c) + if s[|s| - 1] == Some(Piece(c, King)) then 1 else 0
  }

  /** The score is signed material: own pieces count for, the opponent's against. */
  lemma {:induction false} MaterialIsSigned(s: seq<Option<Piece>>, c: Color)
    ensures Material(s, c) == Total(s, c) - Total(s, Opponent(c))
  {
    if |s| > 0 {
      MaterialIsSigned(s[..|s| - 1], c);
    }
  }

  /** Material is zero-sum: one side's score is the negation of the other's. */
  lemma MaterialAntisymmetric(s: seq<Option<Piece>>, c: Color)
    ensures Material(s, c) == -Material(s, Opponent(c))
  {
    MaterialIsSigned(s, c);
    MaterialIsSigned(s, Opponent(c));
  }

  /** Apart from the kings, every square moves the score by at most a queen's value. */
  lemma {:induction false} MaterialBeyondKings(s: seq<Option<Piece>>, c: Color)
    ensures Kings(s, c) + Kings(s, Opponent(c)) <= |s|
    ensures var kingPart := 1000 * (Kings(s, c) - Kings(s, Opponent(c)));
            var others := |s| - Kings(s, c) - Kings(s, Opponent(c));
            -9 * others <= Material(s, c) - kingPart <= 9 * others
  {
    if |s| > 0 {
      MaterialBeyondKings(s[..|s| - 1], c);
    }
  }

  /** With one king of each colour on the board the score is far from the
      search's sentinels: at most the value of 62 queens either way. */
  lemma OneKingEachBounded(b: Board, c: Color)
    requires Kings(b, White) == 1 && Kings(b, Black) == 1
    ensures -558 <= Material(b, c) <= 558
  {
    MaterialBeyondKings(b, c);
  }

  /** The evaluator's loop over the 64 squares. */
  method EvaluateBoard(b: Board, c: Color) returns (score: int)
    ensures score == Material(b, c)
    ensures score == Total(b, c) - Total(b, Opponent(c))
  {
    score := 0;
    var sq := 0;
    while sq < 64
      invariant 0 <= sq <= 64
      invariant score == Material(b[..sq], c)
    {
      assert b[..sq + 1][..sq] == b[..sq];
      match b[sq] {
        case Some(pc) =>
          var value: int := Value(pc.kind);
          score := score + if pc.color == c then value else -value;
        case None =>
      }
      sq := sq + 1;
    }
    assert b[..64] == b;
    MaterialIsSigned(b, c);
  }
}
