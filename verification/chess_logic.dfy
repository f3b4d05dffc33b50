/**
 * The parts of the ChessGame class of src/utils/chessLogic.ts that do not
 * depend on the rules engine: board coordinates, the en-passant field of a
 * FEN string, captured pieces and the last move of a verbose history, and
 * the order in which the engine's end-of-game flags are reported. The
 * engine's answers (its history, its FEN, its flags) are parameters.
 */
module ChessLogic {
  import opened Wrappers

  /** File letters by column, and rank digits by row: row 0 is rank 8. */
  const Files: string := "abcdefgh"
  const Ranks: string := "87654321"

  /** A JavaScript index `s[i]`: the character, or `undefined` outside `s`. */
  function CharAt(s: string, i: int): Option<char> {
    if 0 <= i < |s| then Some(s[i]) else None
  }

  /** A character or `undefined` converted to a string: the character, or the text "undefined". */
  function Shown(c: Option<char>): string {
    if c.Some? then [c.value] else "undefined"
  }

  /** The value of JavaScript `+` on two operands that are each a character or `undefined`. */
  datatype Sum = Text(text: string) | NaN

  // ---------------------------------------------------------------------------
  // Squares and coordinates

  /**
   * `getSquareName(row, col)`: `files[col] + ranks[row]`. One operand
   * `undefined` is shown as text; both `undefined` add up to NaN.
   */
  function SquareName(row: int, col: int): (name: Sum)
    ensures name.NaN? <==> !(0 <= row < 8) && !(0 <= col < 8)
    ensures 0 <= row < 8 && 0 <= col < 8 ==> name.Text? && |name.text| == 2 && name.text[0] == Files[col] && name.text[1] == Ranks[row]
    ensures name.Text? && !(0 <= row < 8 && 0 <= col < 8) ==> |name.text| > 2
  {
    var file, rank := CharAt(Files, col), CharAt(Ranks, row);
    if file.None? && rank.None? then NaN else Text(Shown(file) + Shown(rank))
  }

  /** `t` occurs in `s` at position `j`. */
  predicate OccursAt(s: string, t: string, j: int) {
    0 <= j && j + |t| <= |s| && s[j..j + |t|] == t
  }

  lemma OccursShift(s: string, t: string, j: int)
    requires s != [] && 0 <= j
    ensures OccursAt(s, t, j + 1) <==> OccursAt(s[1..], t, j)
  {
  }

  /** `s.indexOf(t)`: the first position where `t` occurs in `s`, or -1. */
  function IndexOf(s: string, t: string): (k: int)
    ensures -1 <= k <= |s|
    ensures k >= 0 ==> OccursAt(s, t, k) && forall j :: 0 <= j < k ==> !OccursAt(s, t, j)
    ensures k == -1 ==> forall j :: !OccursAt(s, t, j)
    decreases |s|
  {
    if |t| > |s| then -1
    else if s[..|t|] == t then 0
    else
      var r := IndexOf(s[1..], t);
      assert forall j :: OccursAt(s, t, j) <==> j >= 1 && OccursAt(s[1..], t, j - 1) by {
        forall j ensures OccursAt(s, t, j) <==> j >= 1 && OccursAt(s[1..], t, j - 1) {
          if j >= 1 {
            OccursShift(s, t, j - 1);
          } else if j == 0 {
            assert s[0..|t|] == s[..|t|];
          }
        }
      }
      if r < 0 then -1 else r + 1
  }

  /** Searching a string for one character finds its first position, or -1 when it is absent. */
  lemma IndexOfChar(s: string, c: char)
    ensures IndexOf(s, [c]) >= 0 <==> c in s
    ensures IndexOf(s, [c]) >= 0 ==> IndexOf(s, [c]) < |s| && s[IndexOf(s, [c])] == c
    ensures IndexOf(s, [c]) >= 0 ==> forall j :: 0 <= j < IndexOf(s, [c]) ==> s[j] != c
  {
    var k := IndexOf(s, [c]);
    forall j | 0 <= j < |s| ensures OccursAt(s, [c], j) <==> s[j] == c {
      assert s[j..j + 1] == [s[j]];
    }
    if c in s {
      var j :| 0 <= j < |s| && s[j] == c;
      assert OccursAt(s, [c], j);
    }
  }

  /** The position of `square[i]` in `axis`, with -1 for a character not in `axis` or a missing one. */
  function AxisIndex(axis: string, square: string, i: nat): (k: int)
    requires |axis| == 8
    ensures -1 <= k < 8
    ensures k >= 0 <==> i < |square| && square[i] in axis
    ensures k >= 0 ==> axis[k] == square[i] && forall j :: 0 <= j < k ==> axis[j] != square[i]
  {
    if i < |square| then
      IndexOfChar(axis, square[i]);
      IndexOf(axis, [square[i]])
    else
      assert IndexOf(axis, "undefined") == -1;
      IndexOf(axis, Shown(CharAt(square, i)))
  }

  /** `getCoordinates(square)`: `[ranks.indexOf(square[1]), files.indexOf(square[0])]`. */
  function Coordinates(square: string): (rc: (int, int))
    ensures -1 <= rc.0 < 8 && -1 <= rc.1 < 8
    ensures rc.1 >= 0 <==> |square| >= 1 && square[0] in Files
    ensures rc.0 >= 0 <==> |square| >= 2 && square[1] in Ranks
    ensures rc.1 >= 0 ==> Files[rc.1] == square[0]
    ensures rc.0 >= 0 ==> Ranks[rc.0] == square[1]
  {
    (AxisIndex(Ranks, square, 1), AxisIndex(Files, square, 0))
  }

  /** Every board square's name leads back to its coordinates. */
  lemma SquareRoundTrip(row: int, col: int)
    requires 0 <= row < 8 && 0 <= col < 8
    ensures SquareName(row, col).Text? && Coordinates(SquareName(row, col).text) == (row, col)
  {
    var name := SquareName(row, col).text;
    OnAxis(Files, name, 0, col);
    OnAxis(Ranks, name, 1, row);
  }

  /** No file letter or rank digit occurs twice, so each is found at its own position. */
  lemma OnAxis(axis: string, square: string, i: nat, k: int)
    requires axis == Files || axis == Ranks
    requires 0 <= k < 8 && i < |square| && square[i] == axis[k]
    ensures AxisIndex(axis, square, i) == k
  {
    assert forall j :: 0 <= j < k ==> axis[j] != axis[k];
  }

  /** Every two-character name of a board square is the name of its coordinates. */
  lemma CoordinatesRoundTrip(square: string)
    requires |square| == 2 && square[0] in Files && square[1] in Ranks
    ensures 0 <= Coordinates(square).0 < 8 && 0 <= Coordinates(square).1 < 8
    ensures SquareName(Coordinates(square).0, Coordinates(square).1) == Text(square)
  {
    var rc := Coordinates(square);
    NamedBy(square, rc.0, rc.1);
  }

  lemma NamedBy(square: string, row: int, col: int)
    requires |square| == 2 && 0 <= row < 8 && 0 <= col < 8
    requires Files[col] == square[0] && Ranks[row] == square[1]
    ensures SquareName(row, col) == Text(square)
  {
  }

  // ---------------------------------------------------------------------------
  // The en-passant field of a FEN string

  /** `s.split(sep)` for a one-character separator: always at least one part, empty parts kept. */
  function Split(s: string, sep: char): (parts: seq<string>)
    ensures |parts| >= 1
    ensures forall i :: 0 <= i < |parts| ==> sep !in parts[i]
    decreases |s|
  {
    if s == [] then [""]
    else
      var rest := Split(s[1..], sep);
      if s[0] == sep then [""] + rest
      else [[s[0]] + rest[0]] + rest[1..]
  }

  /** `parts.join(sep)`. */
  function JoinWith(parts: seq<string>, sep: char): string
    decreases |parts|
  {
    if parts == [] then ""
    else if |parts| == 1 then parts[0]
    else parts[0] + [sep] + JoinWith(parts[1..], sep)
  }

  lemma JoinWithCons(c: char, parts: seq<string>, sep: char)
    requires |parts| >= 1
    ensures JoinWith([[c] + parts[0]] + parts[1..], sep) == [c] + JoinWith(parts, sep)
  {
  }

  /** Joining the parts of a split gives back the string. */
  lemma {:induction false} SplitThenJoin(s: string, sep: char)
    ensures JoinWith(Split(s, sep), sep) == s
    decreases |s|
  {
    if s != [] {
      var rest := Split(s[1..], sep);
      SplitThenJoin(s[1..], sep);
      if s[0] == sep {
        assert ([""] + rest)[1..] == rest;
      } else {
        JoinWithCons(s[0], rest, sep);
      }
    }
  }

  /** Splitting a string that does not hold the separator gives one part. */
  lemma {:induction false} SplitWhole(a: string, sep: char)
    requires sep !in a
    ensures Split(a, sep) == [a]
    decreases |a|
  {
    if a != [] {
      SplitWhole(a[1..], sep);
      assert [a[0]] + a[1..] == a;
    }
  }

  /** A separator after a separator-free prefix closes the first part. */
  lemma {:induction false} SplitAtSeparator(a: string, b: string, sep: char)
    requires sep !in a
    ensures Split(a + [sep] + b, sep) == [a] + Split(b, sep)
    decreases |a|
  {
    var s := a + [sep] + b;
    if a == [] {
      assert s[1..] == b;
    } else {
      assert s[1..] == a[1..] + [sep] + b;
      SplitAtSeparator(a[1..], b, sep);
      assert [a[0]] + a[1..] == a;
    }
  }

  /** Splitting the join of separator-free parts gives back the parts. */
  lemma {:induction false} JoinThenSplit(parts: seq<string>, sep: char)
    requires |parts| >= 1
    requires forall i :: 0 <= i < |parts| ==> sep !in parts[i]
    ensures Split(JoinWith(parts, sep), sep) == parts
    decreases |parts|
  {
    if |parts| == 1 {
      SplitWhole(parts[0], sep);
    } else {
      JoinThenSplit(parts[1..], sep);
      SplitAtSeparator(parts[0], JoinWith(parts[1..], sep), sep);
      assert [parts[0]] + parts[1..] == parts;
    }
  }

  /**
   * What `getEnPassantSquare` answers: `null` when the fourth field is "-",
   * the field itself otherwise, and `undefined` when the string has fewer
   * than four space-separated fields.
   */
  datatype EnPassant = NoTarget | Target(square: string) | FieldMissing

  /** `getEnPassantSquare()` over the engine's FEN string. */
  function EnPassantSquare(fen: string): (r: EnPassant)
    ensures r.Target? ==> r.square != "-" && ' ' !in r.square
    ensures r == FieldMissing <==> |Split(fen, ' ')| < 4
  {
    var fenParts := Split(fen, ' ');
    if |fenParts| < 4 then FieldMissing
    else if fenParts[3] == "-" then NoTarget
    else Target(fenParts[3])
  }

  /** For a FEN string made of space-free fields, the answer is read off the fourth field unchanged. */
  lemma EnPassantOfFields(fields: seq<string>)
    requires |fields| >= 4
    requires forall i :: 0 <= i < |fields| ==> ' ' !in fields[i]
    ensures EnPassantSquare(JoinWith(fields, ' ')) == if fields[3] == "-" then NoTarget else Target(fields[3])
  {
    JoinThenSplit(fields, ' ');
  }

  // ---------------------------------------------------------------------------
  // Captured pieces and the last move of a verbose history

  datatype PieceType = Pawn | Knight | Bishop | Rook | Queen | King
  /** 'w' / 'b'. */
  datatype PieceColor = White | Black
  datatype ChessPiece = ChessPiece(kind: PieceType, color: PieceColor)

  /** One entry of the engine's verbose history: squares, the mover's colour and the type of a captured piece. */
  datatype HistoryMove = HistoryMove(from: string, to: string, color: PieceColor, captured: Option<PieceType>)

  function Opponent(c: PieceColor): (o: PieceColor)
    ensures o != c
  {
    if c == White then Black else White
  }

  /** The piece a move took, coloured as the side that did not move. */
  function TakenBy(m: HistoryMove): seq<ChessPiece> {
    if m.captured.Some? then [ChessPiece(m.captured.value, Opponent(m.color))] else []
  }

  /** Every captured piece of `history`, in history order. */
  function CapturedIn(history: seq<HistoryMove>): seq<ChessPiece>
    decreases |history|
  {
    if history == [] then []
    else CapturedIn(history[..|history| - 1]) + TakenBy(history[|history| - 1])
  }

  /** The pieces of colour `c`, in order. */
  function OfColor(pieces: seq<ChessPiece>, c: PieceColor): (r: seq<ChessPiece>)
    ensures |r| <= |pieces|
    ensures forall i :: 0 <= i < |r| ==> r[i].color == c
    decreases |pieces|
  {
    if pieces == [] then []
    else OfColor(pieces[..|pieces| - 1], c) + (if pieces[|pieces| - 1].color == c then [pieces[|pieces| - 1]] else [])
  }

  /** The moves made by side `c`, in order. */
  function MovesBy(history: seq<HistoryMove>, c: PieceColor): seq<HistoryMove>
    decreases |history|
  {
    if history == [] then []
    else MovesBy(history[..|history| - 1], c) + (if history[|history| - 1].color == c then [history[|history| - 1]] else [])
  }

  /** How many moves of `history` captured something. */
  function CaptureCount(history: seq<HistoryMove>): nat
    decreases |history|
  {
    if history == [] then 0
    else CaptureCount(history[..|history| - 1]) + (if history[|history| - 1].captured.Some? then 1 else 0)
  }

  /** `getCapturedPieces()`: one pass over the history, appending each taken piece to the list of its colour. */
  method CapturedPieces(history: seq<HistoryMove>) returns (white: seq<ChessPiece>, black: seq<ChessPiece>)
    ensures white == OfColor(CapturedIn(history), White)
    ensures black == OfColor(CapturedIn(history), Black)
  {
    white, black := [], [];
    for i := 0 to |history|
      invariant white == OfColor(CapturedIn(history[..i]), White)
      invariant black == OfColor(CapturedIn(history[..i]), Black)
    {
      var move := history[i];
      assert history[..i + 1][..i] == history[..i] && history[..i + 1][i] == move;
      assert CapturedIn(history[..i + 1]) == CapturedIn(history[..i]) + TakenBy(move);
      OfColorAppend(CapturedIn(history[..i]), TakenBy(move), White);
      OfColorAppend(CapturedIn(history[..i]), TakenBy(move), Black);
      if move.captured.Some? {
        var capturedPiece := ChessPiece(move.captured.value, if move.color == White then Black else White);
        assert TakenBy(move) == [capturedPiece];
        if capturedPiece.color == White {
          white := white + [capturedPiece];
        } else {
          black := black + [capturedPiece];
        }
      }
    }
    assert history[..|history|] == history;
  }

  /** Splitting by colour loses and invents nothing. */
  lemma {:induction false} OfColorPartition(pieces: seq<ChessPiece>)
    ensures multiset(OfColor(pieces, White)) + multiset(OfColor(pieces, Black)) == multiset(pieces)
    ensures |OfColor(pieces, White)| + |OfColor(pieces, Black)| == |pieces|
    decreases |pieces|
  {
    if pieces != [] {
      var init, last := pieces[..|pieces| - 1], pieces[|pieces| - 1];
      OfColorPartition(init);
      assert pieces == init + [last];
      if last.color == White {
        assert OfColor(pieces, White) == OfColor(init, White) + [last];
        assert OfColor(pieces, Black) == OfColor(init, Black);
      } else {
        assert OfColor(pieces, White) == OfColor(init, White);
        assert OfColor(pieces, Black) == OfColor(init, Black) + [last];
      }
    }
  }

  /** There is one captured piece per capturing move. */
  lemma {:induction false} CapturedCount(history: seq<HistoryMove>)
    ensures |CapturedIn(history)| == CaptureCount(history)
    decreases |history|
  {
    if history != [] {
      CapturedCount(history[..|history| - 1]);
    }
  }

  /** The two lists hold every captured piece once, and there are as many as there were capturing moves. */
  lemma CapturedPiecesPartition(history: seq<HistoryMove>)
    ensures multiset(OfColor(CapturedIn(history), White)) + multiset(OfColor(CapturedIn(history), Black))
         == multiset(CapturedIn(history))
    ensures |OfColor(CapturedIn(history), White)| + |OfColor(CapturedIn(history), Black)| == CaptureCount(history)
  {
    OfColorPartition(CapturedIn(history));
    CapturedCount(history);
  }

  /** The list of colour `c` is what the other side's moves took, in order. */
  lemma {:induction false} CapturedOfColor(history: seq<HistoryMove>, c: PieceColor)
    ensures OfColor(CapturedIn(history), c) == CapturedIn(MovesBy(history, Opponent(c)))
    decreases |history|
  {
    if history != [] {
      var init, last := history[..|history| - 1], history[|history| - 1];
      CapturedOfColor(init, c);
      OfColorAppend(CapturedIn(init), TakenBy(last), c);
      var theirs := MovesBy(init, Opponent(c));
      assert CapturedIn(history) == CapturedIn(init) + TakenBy(last);
      if last.color == Opponent(c) {
        var mine := theirs + [last];
        assert MovesBy(history, Opponent(c)) == mine;
        assert mine[..|mine| - 1] == theirs;
        assert CapturedIn(mine) == CapturedIn(theirs) + TakenBy(last);
        assert OfColor(TakenBy(last), c) == TakenBy(last);
      } else {
        assert MovesBy(history, Opponent(c)) == theirs;
        assert OfColor(TakenBy(last), c) == [];
      }
    }
  }

  lemma {:induction false} OfColorAppend(a: seq<ChessPiece>, b: seq<ChessPiece>, c: PieceColor)
    requires |b| <= 1
    ensures OfColor(a + b, c) == OfColor(a, c) + OfColor(b, c)
  {
    if b != [] {
      assert (a + b)[..|a + b| - 1] == a;
      assert b[..0] == [];
    } else {
      assert a + b == a;
    }
  }

  /** `getLastMove()`: nothing for an empty history, else the coordinates of the last move's squares. */
  function LastMove(history: seq<HistoryMove>): (r: Option<((int, int), (int, int))>)
    ensures r.None? <==> history == []
    ensures r.Some? ==> -1 <= r.value.0.0 < 8 && -1 <= r.value.0.1 < 8 && -1 <= r.value.1.0 < 8 && -1 <= r.value.1.1 < 8
  {
    if |history| == 0 then None
    else
      var lastMove := history[|history| - 1];
      Some((Coordinates(lastMove.from), Coordinates(lastMove.to)))
  }

  /** When the last move's squares are board squares, the answer is their coordinates. */
  lemma LastMoveOfSquares(history: seq<HistoryMove>, fromRow: int, fromCol: int, toRow: int, toCol: int)
    requires history != []
    requires 0 <= fromRow < 8 && 0 <= fromCol < 8 && 0 <= toRow < 8 && 0 <= toCol < 8
    requires history[|history| - 1].from == SquareName(fromRow, fromCol).text
    requires history[|history| - 1].to == SquareName(toRow, toCol).text
    ensures LastMove(history) == Some(((fromRow, fromCol), (toRow, toCol)))
  {
    SquareRoundTrip(fromRow, fromCol);
    SquareRoundTrip(toRow, toCol);
  }

  // ---------------------------------------------------------------------------
  // The reported end of a game

  datatype Ending = Checkmate | Draw | Stalemate

  /** `getGameResult()` given the engine's checkmate, draw and stalemate flags. */
  function GameResult(isCheckmate: bool, isDraw: bool, isStalemate: bool): (r: Option<Ending>)
    ensures r == Some(Checkmate) <==> isCheckmate
    ensures r == Some(Draw) <==> !isCheckmate && isDraw
    ensures r == Some(Stalemate) <==> !isCheckmate && !isDraw && isStalemate
    ensures r == None <==> !isCheckmate && !isDraw && !isStalemate
  {
    if isCheckmate then Some(Checkmate)
    else if isDraw then Some(Draw)
    else if isStalemate then Some(Stalemate)
    else None
  }

  /** When the engine counts every stalemate as a draw, "stalemate" is never reported. */
  lemma StalemateShadowedByDraw(isCheckmate: bool, isDraw: bool, isStalemate: bool)
    requires isStalemate ==> isDraw
    ensures GameResult(isCheckmate, isDraw, isStalemate) != Some(Stalemate)
  {
  }
}
