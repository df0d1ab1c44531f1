/**
 * The word-guessing game: a 6 x 5 board of coloured letters, a sorted word
 * list searched by binary search, and the rule that only a valid guess
 * costs an attempt.
 */
module Wordle {
  import opened Strings
  import opened Sorting

  /** GREEN, YELLOW and COLOR_OFF: the escape codes "\033[92m", "\033[93m" and "\033[0m". */
  datatype Color = Green | Yellow | Off

  datatype Cell = Cell(letter: char, color: Color)

  /** `Cell()`: an unused cell. */
  const BlankCell := Cell('*', Off)

  /** The board has one row per attempt and one column per letter. */
  const Attempts := 6
  const WordLength := 5

  /** `to_lowercase`: a copy of s with every character mapped by `tolower`. */
  method ToLowercase(s: string) returns (lower: string)
    ensures |lower| == |s|
    ensures forall i :: 0 <= i < |s| ==> lower[i] == Lower(s[i])
    ensures lower == LowerString(s)
  {
    lower := s;
    for i := 0 to |lower|
      invariant |lower| == |s|
      invariant forall j :: 0 <= j < i ==> lower[j] == Lower(s[j])
      invariant forall j :: i <= j < |s| ==> lower[j] == s[j]
    {
      lower := lower[i := Lower(lower[i])];
    }
  }

  // ------------------------------------------------------------ word list

  /** `std::lower_bound` on list[lo..hi]: the first position whose word is not less than x. */
  function LowerBound(list: seq<string>, x: string, lo: nat, hi: nat): (r: nat)
    requires lo <= hi <= |list|
    ensures lo <= r <= hi
    ensures Sorted(list, StrLe) ==>
              (forall i :: lo <= i < r ==> StrLess(list[i], x)) && (forall i :: r <= i < hi ==> !StrLess(list[i], x))
    decreases hi - lo
  {
    if lo == hi then lo
    else
      var mid := lo + (hi - lo) / 2;
      if StrLess(list[mid], x) then
        assert Sorted(list, StrLe) ==> forall i :: lo <= i <= mid ==> StrLess(list[i], x) by {
          if Sorted(list, StrLe) {
            forall i | lo <= i < mid {
              StrLeLessTrans(list[i], list[mid], x);
            }
          }
        }
        LowerBound(list, x, mid + 1, hi)
      else
        assert Sorted(list, StrLe) ==> forall i :: mid <= i < hi ==> !StrLess(list[i], x) by {
          if Sorted(list, StrLe) {
            forall i | mid < i < hi
              ensures !StrLess(list[i], x)
            {
              if StrLess(list[i], x) {
                assert StrLe(list[mid], list[i]);
                StrLeLessTrans(list[mid], list[i], x);
              }
            }
          }
        }
        LowerBound(list, x, lo, mid)
  }

  /** `std::binary_search`: on a sorted list, true exactly when x is in it. */
  function BinarySearch(list: seq<string>, x: string): (found: bool)
    ensures Sorted(list, StrLe) ==> (found <==> x in list)
  {
    var i := LowerBound(list, x, 0, |list|);
    var found := i != |list| && !StrLess(x, list[i]);
    assert Sorted(list, StrLe) ==> (found <==> x in list) by {
      if Sorted(list, StrLe) {
        if found {
          StrLessTotal(x, list[i]);
        }
        if x in list {
          var k :| 0 <= k < |list| && list[k] == x;
          StrLessIrreflexive(x);
          if k != i {
            assert StrLe(list[i], list[k]);
          }
        }
      }
    }
    found
  }

  /** `is_valid_word`: the guess, lower-cased, is found in the sorted word list. */
  method IsValidWord(word: string, list: seq<string>) returns (valid: bool)
    ensures valid == BinarySearch(list, LowerString(word))
    ensures Sorted(list, StrLe) ==> (valid <==> LowerString(word) in list)
  {
    var lower := ToLowercase(word);
    valid := BinarySearch(list, lower);
  }

  // ------------------------------------------------------------ scoring

  /** `target[i]`: a std::string yields '\0' at its own length. */
  function CharAt(s: string, i: nat): char {
    if i < |s| then s[i] else '\0'
  }

  /**
   * The colour of letter i of a guess: green where it matches the target at
   * the same position, yellow where it occurs anywhere in the target, off
   * otherwise. Repeated letters are not counted.
   */
  function ColorOf(guess: string, target: string, i: nat): Color
    requires i < |guess|
  {
    if guess[i] == CharAt(target, i) then Green else if guess[i] in target then Yellow else Off
  }

  /** The row a guess leaves on the board. */
  function ScoreRow(guess: string, target: string): (row: seq<Cell>)
    ensures |row| == |guess|
    ensures forall i :: 0 <= i < |guess| ==> row[i] == Cell(guess[i], ColorOf(guess, target, i))
  {
    seq(|guess|, i requires 0 <= i < |guess| => Cell(guess[i], ColorOf(guess, target, i)))
  }

  /** Green, yellow and off partition the letters of a guess as the update rule says. */
  lemma ColorCases(guess: string, target: string, i: nat)
    requires i < |guess|
    ensures ScoreRow(guess, target)[i].letter == guess[i]
    ensures ScoreRow(guess, target)[i].color == Green <==> guess[i] == CharAt(target, i)
    ensures ScoreRow(guess, target)[i].color == Yellow <==> guess[i] != CharAt(target, i) && guess[i] in target
    ensures ScoreRow(guess, target)[i].color == Off <==> guess[i] != CharAt(target, i) && guess[i] !in target
  {
  }

  /** A guess of the target's length is the target exactly when its row is all green. */
  lemma AllGreenIffCorrect(guess: string, target: string)
    requires |guess| == |target|
    ensures (forall i :: 0 <= i < |guess| ==> ScoreRow(guess, target)[i].color == Green) <==> guess == target
  {
    var row := ScoreRow(guess, target);
    if forall i :: 0 <= i < |guess| ==> row[i].color == Green {
      forall i | 0 <= i < |guess|
        ensures guess[i] == target[i]
      {
        assert row[i].color == Green;
      }
      assert guess == target;
    }
  }

  /** A yellow letter occurs in the target at some other position; an off letter occurs nowhere. */
  lemma YellowIsElsewhere(guess: string, target: string, i: nat)
    requires i < |guess|
    ensures ScoreRow(guess, target)[i].color == Yellow ==> exists j :: 0 <= j < |target| && j != i && target[j] == guess[i]
    ensures ScoreRow(guess, target)[i].color == Off ==> forall j :: 0 <= j < |target| ==> target[j] != guess[i]
  {
    if ScoreRow(guess, target)[i].color == Yellow {
      var j :| 0 <= j < |target| && target[j] == guess[i];
    }
  }

  /** `vector<vector<Cell>> board(6, vector<Cell>(5))`. */
  method NewBoard() returns (board: array2<Cell>)
    ensures fresh(board) && board.Length0 == Attempts && board.Length1 == WordLength
    ensures forall r, c :: 0 <= r < Attempts && 0 <= c < WordLength ==> board[r, c] == BlankCell
  {
    board := new Cell[Attempts, WordLength]((_, _) => BlankCell);
  }

  /** `update_board`: row attempt, columns 0..|guess|-1 receive the scored guess; nothing else changes. */
  method UpdateBoard(board: array2<Cell>, guess: string, target: string, attempt: nat)
    requires attempt < board.Length0 && |guess| <= board.Length1
    modifies board
    ensures forall c :: 0 <= c < |guess| ==> board[attempt, c] == ScoreRow(guess, target)[c]
    ensures forall r, c :: 0 <= r < board.Length0 && 0 <= c < board.Length1 && (r != attempt || c >= |guess|) ==>
              board[r, c] == old(board[r, c])
  {
    ghost var row := ScoreRow(guess, target);
    for i := 0 to |guess|
      invariant forall c :: 0 <= c < i ==> board[attempt, c] == row[c]
      invariant forall r, c :: 0 <= r < board.Length0 && 0 <= c < board.Length1 && (r != attempt || c >= i) ==>
                  board[r, c] == old(board[r, c])
    {
      if guess[i] == CharAt(target, i) {
        board[attempt, i] := Cell(guess[i], Green);
      } else if guess[i] in target {
        board[attempt, i] := Cell(guess[i], Yellow);
      } else {
        board[attempt, i] := Cell(guess[i], Off);
      }
    }
  }

  // ------------------------------------------------------------ a game

  /** How `play_game` ends; NewGame stands for the nested game that "new" starts. */
  datatype GameEnd = Won | Lost | Quit | NewGame | OutOfInput

  /** A guess that is scored: five characters and in the word list. */
  predicate Acceptable(guess: string, words: seq<string>) {
    |guess| == WordLength && BinarySearch(words, LowerString(guess))
  }

  predicate IsCommand(g: string) {
    g == "quit" || g == "new"
  }

  /** The guesses that would be scored, in order: the acceptable inputs before the first command. */
  function Scored(inputs: seq<string>, words: seq<string>): seq<string> {
    if inputs == [] || IsCommand(inputs[0]) then []
    else (if Acceptable(inputs[0], words) then [inputs[0]] else []) + Scored(inputs[1..], words)
  }

  /** Only acceptable guesses are scored, and each of them is one of the inputs. */
  lemma {:induction false} ScoredAcceptable(inputs: seq<string>, words: seq<string>)
    ensures forall g :: g in Scored(inputs, words) ==> Acceptable(g, words) && g in inputs
  {
    if inputs != [] && !IsCommand(inputs[0]) {
      ScoredAcceptable(inputs[1..], words);
      assert forall g :: g in inputs[1..] ==> g in inputs;
    }
  }

  /** What ends the input when no guess wins or loses the game. */
  function Stop(inputs: seq<string>): GameEnd {
    if inputs == [] then OutOfInput
    else if inputs[0] == "quit" then Quit
    else if inputs[0] == "new" then NewGame
    else Stop(inputs[1..])
  }

  /** The board shows the scored guesses in its first rows and blank cells below them. */
  ghost predicate Shows(board: array2<Cell>, guesses: seq<string>, target: string)
    reads board
  {
    && board.Length0 == Attempts && board.Length1 == WordLength && |guesses| <= Attempts
    && (forall k :: 0 <= k < |guesses| ==> |guesses[k]| == WordLength)
    && (forall r, c :: 0 <= r < |guesses| && 0 <= c < WordLength ==> board[r, c] == ScoreRow(guesses[r], target)[c])
    && (forall r, c :: |guesses| <= r < Attempts && 0 <= c < WordLength ==> board[r, c] == BlankCell)
  }

  lemma EmptyConcat(a: seq<string>)
    ensures [] + a == a
  {
  }

  lemma ConcatAssoc(a: seq<string>, b: seq<string>, c: seq<string>)
    ensures a + (b + c) == (a + b) + c
  {
  }

  lemma PrefixOfConcat(a: seq<string>, b: seq<string>)
    ensures (a + b)[..|a|] == a
  {
  }

  /** Reading one input: a command ends the scored guesses, anything else is scored when acceptable. */
  lemma InputStep(inputs: seq<string>, i: nat, words: seq<string>)
    requires i < |inputs|
    ensures IsCommand(inputs[i]) ==> Scored(inputs[i..], words) == [] && Stop(inputs[i..]) == if inputs[i] == "quit" then Quit else NewGame
    ensures !IsCommand(inputs[i]) ==>
      && Scored(inputs[i..], words) == (if Acceptable(inputs[i], words) then [inputs[i]] else []) + Scored(inputs[i + 1..], words)
      && Stop(inputs[i..]) == Stop(inputs[i + 1..])
  {
    assert inputs[i..][1..] == inputs[i + 1..];
  }

  /** One scored guess: `update_board` on the next free row. */
  method Score(board: array2<Cell>, ghost guesses: seq<string>, guess: string, target: string, attempt: nat)
    requires Shows(board, guesses, target) && attempt == |guesses| < Attempts && |guess| == WordLength
    modifies board
    ensures Shows(board, guesses + [guess], target)
  {
    UpdateBoard(board, guess, target, attempt);
  }

  /**
   * The attempt loop of `play_game` over the words the player types: an invalid guess does
   * not consume an attempt, at most six guesses are scored, and the game is
   * won by the first scored guess equal to the target.
   */
  method PlayGame(inputs: seq<string>, target: string, words: seq<string>) returns (result: GameEnd, attempts: nat, board: array2<Cell>)
    ensures fresh(board)
    ensures var s := Scored(inputs, words);
      && attempts <= |s|
      && Shows(board, s[..attempts], target)
      && (result == Won ==> 1 <= attempts && s[attempts - 1] == target && target !in s[..attempts - 1])
      && (result == Lost ==> attempts == Attempts && target !in s[..Attempts])
      && (result != Won && result != Lost ==> result == Stop(inputs) && attempts == |s| < Attempts && target !in s)
  {
    board := NewBoard();
    var attempt := 0;
    var i := 0;
    ghost var s := Scored(inputs, words);
    ghost var scored: seq<string> := [];
    while attempt < Attempts
      invariant 0 <= i <= |inputs| && attempt == |scored|
      invariant s == scored + Scored(inputs[i..], words)
      invariant Stop(inputs) == Stop(inputs[i..])
      invariant target !in scored
      invariant Shows(board, scored, target)
      decreases Attempts - attempt, |inputs| - i
    {
      if i == |inputs| {
        PrefixOfConcat(scored, []);
        return OutOfInput, attempt, board;
      }
      var guess := inputs[i];
      InputStep(inputs, i, words);
      i := i + 1;
      if guess == "quit" || guess == "new" {
        PrefixOfConcat(scored, []);
        return if guess == "quit" then Quit else NewGame, attempt, board;
      }
      var valid := IsValidWord(guess, words);
      if |guess| != WordLength || !valid {
        EmptyConcat(Scored(inputs[i..], words));
        continue;
      }
      ConcatAssoc(scored, [guess], Scored(inputs[i..], words));
      Score(board, scored, guess, target, attempt);
      scored := scored + [guess];
      attempt := attempt + 1;
      if guess == target {
        PrefixOfConcat(scored, Scored(inputs[i..], words));
        assert scored[..attempt - 1] == scored[..|scored| - 1];
        return Won, attempt, board;
      }
    }
    PrefixOfConcat(scored, Scored(inputs[i..], words));
    return Lost, attempt, board;
  }
}
