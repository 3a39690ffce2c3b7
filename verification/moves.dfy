/** The move-picking service of the tic-tac-toe game: the board description
    sent to the text model, the opponent's symbol, and — once the model's
    answer has been reduced to a candidate — the test a candidate must pass and the two
    fallbacks that pick an empty cell instead. */
module Moves {
  import opened Opt
  import Seqs
  import Text

  datatype Symbol = X | O

  /** A cell: empty (`null`) or holding a symbol. */
  datatype SquareValue = Empty | Mark(symbol: Symbol)

  /** Cells 0..8 of the 3x3 grid, row by row. The service reads whatever
      array it is handed, so no length is imposed here. */
  type Board = seq<SquareValue>

  predicate IsEmpty(v: SquareValue) {
    v == Empty
  }

  predicate HasEmptyCell(board: Board) {
    exists i :: 0 <= i < |board| && board[i] == Empty
  }

  /** The symbol the prompt names as the opponent's. */
  function Opponent(s: Symbol): (r: Symbol)
    ensures r != s
  {
    if s == X then O else X
  }

  // ---------------------------------------------------------------------------
  // The board description

  /** A cell as the description writes it: its symbol, or "empty". */
  function CellText(v: SquareValue): string {
    match v
    case Empty => "empty"
    case Mark(X) => "X"
    case Mark(O) => "O"
  }

  /** One entry of the description: "<index>: <cell>". */
  function Entry(i: nat, v: SquareValue): string {
    Text.Digits(i) + ": " + CellText(v)
  }

  /** One entry per cell, in index order, numbering from `start`. */
  function EntriesFrom(board: Board, start: nat): (r: seq<string>)
    ensures |r| == |board|
    ensures forall i :: 0 <= i < |board| ==> r[i] == Entry(start + i, board[i])
    decreases |board|
  {
    if |board| == 0 then [] else [Entry(start, board[0])] + EntriesFrom(board[1..], start + 1)
  }

  /** The entries of the whole board, numbered from 0. */
  function Entries(board: Board): (r: seq<string>)
    ensures |r| == |board|
  {
    EntriesFrom(board, 0)
  }

  /** The board as it is written into the prompt: the entries joined by ", ".
      It is empty only for an empty board and reads back as the board. */
  function Describe(board: Board): (r: string)
    ensures r == "" <==> |board| == 0
    ensures ReadDescription(r) == Some(board)
  {
    var r := Text.Join(Entries(board), ", ");
    DescriptionRoundTrip(board);
    r
  }

  function ParseCell(t: string): Option<SquareValue> {
    if t == "empty" then Some(Empty)
    else if t == "X" then Some(Mark(X))
    else if t == "O" then Some(Mark(O))
    else None
  }

  /** Reads one "<index>: <cell>" entry back. */
  function ParseEntry(e: string): Option<(nat, SquareValue)> {
    var colon := Text.IndexOf(e, ':');
    if colon.None? || colon.value + 2 > |e| || e[colon.value + 1] != ' ' then None
    else
      var index := Text.ParseNat(e[..colon.value]);
      var cell := ParseCell(e[colon.value + 2..]);
      if index.Some? && cell.Some? then Some((index.value, cell.value)) else None
  }

  /** Reads entries that must number the cells `start`, `start + 1`, ... */
  function ParseEntries(entries: seq<string>, start: nat): Option<Board>
    decreases |entries|
  {
    if |entries| == 0 then Some([])
    else
      var head := ParseEntry(entries[0]);
      var rest := ParseEntries(entries[1..], start + 1);
      if head.Some? && head.value.0 == start && rest.Some? then Some([head.value.1] + rest.value)
      else None
  }

  /** Reads a whole board description back. */
  function ReadDescription(s: string): Option<Board> {
    if s == "" then Some([]) else ParseEntries(Text.Split(s), 0)
  }

  lemma EntryHasNoComma(i: nat, v: SquareValue)
    ensures ',' !in Entry(i, v)
  {
  }

  lemma ParseEntryOfEntry(i: nat, v: SquareValue)
    ensures ParseEntry(Entry(i, v)) == Some((i, v))
  {
    CellTextReadsBack(v);
    ParseEntryParts(Text.Digits(i), CellText(v));
    Text.ParseDigits(i);
  }

  /** A numeral, ": " and a cell text read back as the number and the cell. */
  lemma ParseEntryParts(d: string, t: string)
    requires Text.ParseNat(d).Some? && ParseCell(t).Some?
    ensures ParseEntry(d + ": " + t) == Some((Text.ParseNat(d).value, ParseCell(t).value))
  {
    var e := d + ": " + t;
    assert ':' !in d;
    assert e == d + [':'] + (" " + t);
    Text.IndexOfAfterPrefix(d, ':', " " + t);
    assert e[..|d|] == d;
    assert e[|d| + 2..] == t;
  }

  lemma CellTextReadsBack(v: SquareValue)
    ensures ParseCell(CellText(v)) == Some(v)
  {
  }

  lemma {:induction false} ParseEntriesOfBoard(board: Board, start: nat)
    ensures ParseEntries(EntriesFrom(board, start), start) == Some(board)
    decreases |board|
  {
    if |board| > 0 {
      var entries := EntriesFrom(board, start);
      assert entries[0] == Entry(start, board[0]);
      assert entries[1..] == EntriesFrom(board[1..], start + 1);
      ParseEntriesOfBoard(board[1..], start + 1);
      ParseEntryOfEntry(start, board[0]);
      ParseEntriesCons(entries, start, board[0], board[1..]);
      assert [board[0]] + board[1..] == board;
    }
  }

  lemma ParseEntriesCons(entries: seq<string>, start: nat, v: SquareValue, rest: Board)
    requires |entries| > 0
    requires ParseEntry(entries[0]) == Some((start, v))
    requires ParseEntries(entries[1..], start + 1) == Some(rest)
    ensures ParseEntries(entries, start) == Some([v] + rest)
  {
  }

  /** The description loses nothing: the entries, one per cell in index
      order, joined by ", ", read back as the board they were written from;
      the text is empty only for an empty board. */
  lemma DescriptionRoundTrip(board: Board)
    ensures Text.Join(Entries(board), ", ") == "" <==> |board| == 0
    ensures ReadDescription(Text.Join(Entries(board), ", ")) == Some(board)
  {
    var entries := Entries(board);
    if |board| > 0 {
      forall k | 0 <= k < |entries|
        ensures ',' !in entries[k]
      {
        EntryHasNoComma(k, board[k]);
      }
      Text.SplitJoin(entries);
      assert Text.Join(entries, ", ") != "" by {
        assert |entries[0]| > 0;
        JoinStartsWithFirst(entries, ", ");
      }
      ParseEntriesOfBoard(board, 0);
    }
  }

  lemma JoinStartsWithFirst(parts: seq<string>, sep: string)
    requires |parts| > 0
    ensures |Text.Join(parts, sep)| >= |parts[0]|
  {
  }

  // ---------------------------------------------------------------------------
  // Choosing the move

  /** The `move` field of the model's JSON answer: a finite number, or
      anything else (missing, a string, an object). A literal too large for a
      double parses to an infinity; it is modelled as `NotNumber`, since the
      acceptance test rejects it exactly as it rejects every non-number. */
  datatype Candidate = NotNumber | Number(value: real)

  /** How the request ended: it threw (network error, empty text, unparsable
      JSON, no object to read `move` from), or it produced a candidate. */
  datatype Reply = Failed | Parsed(move: Candidate)

  /** The acceptance test as written: a number between 0 and 8 that indexes
      an empty cell. Only a whole number can index a cell. */
  predicate Acceptable(board: Board, c: Candidate) {
    && c.Number?
    && 0.0 <= c.value <= 8.0
    && c.value == c.value.Floor as real
    && c.value.Floor < |board|
    && board[c.value.Floor] == Empty
  }

  /** The acceptance test passes exactly for the candidates that name an empty
      cell among cells 0..8 of the board. */
  lemma AcceptableNamesEmptyCell(board: Board, c: Candidate)
    ensures Acceptable(board, c) <==>
              exists i :: 0 <= i <= 8 && i < |board| && board[i] == Empty && c == Number(i as real)
  {
    if Acceptable(board, c) {
      var i := c.value.Floor;
      assert 0 <= i <= 8 && i < |board| && board[i] == Empty && c == Number(i as real);
    }
    if exists i :: 0 <= i <= 8 && i < |board| && board[i] == Empty && c == Number(i as real) {
      var i :| 0 <= i <= 8 && i < |board| && board[i] == Empty && c == Number(i as real);
      assert c.value.Floor == i;
    }
  }

  /** The indices of the empty cells, computed as the service does: each cell
      mapped to its index or to nothing, then the nothings filtered out. */
  function Available(board: Board): (r: seq<nat>)
    ensures r == Seqs.MatchingIndices(board, IsEmpty)
    ensures forall k :: 0 <= k < |r| ==> r[k] < |board| && board[r[k]] == Empty
    ensures forall j, k :: 0 <= j < k < |r| ==> r[j] < r[k]
    ensures forall i :: 0 <= i < |board| && board[i] == Empty ==> i in r
  {
    var tagged := seq(|board|, i requires 0 <= i < |board| => if board[i] == Empty then Some(i as nat) else None);
    var kept := Seqs.Filter(tagged, IsSome);
    var r := seq(|kept|, k requires 0 <= k < |kept| => kept[k].value);
    TaggedSelection(board, tagged, kept, r);
    r
  }

  lemma TaggedSelection(board: Board, tagged: seq<Option<nat>>, kept: seq<Option<nat>>, r: seq<nat>)
    requires tagged == seq(|board|, i requires 0 <= i < |board| => if board[i] == Empty then Some(i as nat) else None)
    requires kept == Seqs.Filter(tagged, IsSome)
    requires |r| == |kept| && forall k :: 0 <= k < |kept| ==> kept[k].Some? && r[k] == kept[k].value
    ensures r == Seqs.MatchingIndices(board, IsEmpty)
  {
    Seqs.FilterIsPick(tagged, IsSome);
    Seqs.MatchingIndicesPointwise(tagged, IsSome, board, IsEmpty);
  }

  /** The fallback for an unacceptable candidate: the first available index,
      or `None` (`undefined`) when the board is full. */
  function FirstAvailable(board: Board): (r: Option<nat>)
    ensures r.Some? <==> HasEmptyCell(board)
    ensures r.Some? ==> r.value < |board| && board[r.value] == Empty
    ensures r.Some? ==> forall j :: 0 <= j < r.value ==> board[j] != Empty
  {
    var available := Available(board);
    if |available| > 0 then
      FirstIsLeast(board, available);
      Some(available[0])
    else
      None
  }

  lemma FirstIsLeast(board: Board, available: seq<nat>)
    requires available == Available(board) && |available| > 0
    ensures forall j :: 0 <= j < available[0] ==> board[j] != Empty
  {
    forall j | 0 <= j < available[0]
      ensures board[j] != Empty
    {
    }
  }

  /** The position a random draw `rand` in [0, 1) selects among `n` choices. */
  function RandomPosition(rand: real, n: nat): (k: int)
    requires 0.0 <= rand < 1.0
    ensures n > 0 ==> 0 <= k < n
    ensures n == 0 ==> k == 0
  {
    var x := rand * n as real;
    assert 0.0 <= x;
    assert n > 0 ==> x < n as real;
    x.Floor
  }

  /** The fallback after a failed request: an available index chosen by the
      random draw, or `None` (`undefined`) when the board is full. */
  function RandomAvailable(board: Board, rand: real): (r: Option<nat>)
    requires 0.0 <= rand < 1.0
    ensures r.Some? <==> HasEmptyCell(board)
    ensures r.Some? ==> exists k :: 0 <= k < |Available(board)| && r.value == Available(board)[k]
    ensures r.Some? ==> r.value < |board| && board[r.value] == Empty
  {
    var available := Available(board);
    var k := RandomPosition(rand, |available|);
    if 0 <= k < |available| then Some(available[k]) else None
  }

  /** Every empty cell can come out of the random fallback. */
  lemma RandomAvailableReachesEveryEmptyCell(board: Board, i: nat)
    requires i < |board| && board[i] == Empty
    ensures exists rand :: 0.0 <= rand < 1.0 && RandomAvailable(board, rand) == Some(i)
  {
    var available := Available(board);
    var k :| 0 <= k < |available| && available[k] == i;
    var n := |available|;
    var rand := k as real / n as real;
    RandomPositionHits(k, n);
    assert RandomAvailable(board, rand) == Some(i);
  }

  /** The draw k/n selects position k. */
  lemma RandomPositionHits(k: nat, n: nat)
    requires k < n
    ensures var rand := k as real / n as real;
      0.0 <= rand < 1.0 && RandomPosition(rand, n) == k
  {
    var rand := k as real / n as real;
    assert rand * n as real == k as real;
    assert rand >= 1.0 ==> rand * n as real >= n as real;
  }

  /** The move the service returns: the candidate when acceptable, otherwise
      the first available index; after a failed request, a random available
      index. `None` is the `undefined` a full board leads to. Whatever the
      reply, a move comes back exactly when the board has an empty cell, and
      it names an empty cell. This covers every path that reaches the request;
      a throw while constructing the client, before it, returns no move. */
  function ChooseMove(board: Board, reply: Reply, rand: real): (r: Option<nat>)
    requires 0.0 <= rand < 1.0
    ensures r.Some? <==> HasEmptyCell(board)
    ensures r.Some? ==> r.value < |board| && board[r.value] == Empty
    ensures r.Some? && |board| == 9 ==> r.value <= 8
    ensures reply.Parsed? && Acceptable(board, reply.move) ==> r == Some(reply.move.value.Floor)
    ensures reply.Parsed? && !Acceptable(board, reply.move) && r.Some? ==>
              forall j :: 0 <= j < r.value ==> board[j] != Empty
    ensures reply.Failed? && r.Some? ==>
              exists k :: 0 <= k < |Available(board)| && r.value == Available(board)[k]
  {
    match reply
    case Failed => RandomAvailable(board, rand)
    case Parsed(c) => if Acceptable(board, c) then Some(c.value.Floor) else FirstAvailable(board)
  }

  /** On the nine-cell board, the candidate itself comes back only when it
      passed the acceptance test. */
  lemma CandidateReturnedOnlyIfAcceptable(board: Board, v: real, rand: real)
    requires |board| == 9
    requires 0.0 <= rand < 1.0
    requires ChooseMove(board, Parsed(Number(v)), rand) == Some(v.Floor) && v == v.Floor as real
    ensures Acceptable(board, Number(v))
  {
  }
}
