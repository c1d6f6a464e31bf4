/** The structural check run on a decoded board before it is solved. */
module Validate {

  /** A decoded value of unknown shape: an integer, a list, or anything else. */
  datatype Val = Int(n: int) | List(items: seq<Val>) | Other

  /** Why a board was refused; rows and columns are 0-based. */
  datatype Reason =
    | NotAList
    | WrongRowCount
    | RowNotList(row: nat)
    | RowWrongLength(row: nat)
    | CellNotInt(row: nat, col: nat)
    | CellOutOfRange(row: nat, col: nat)

  /** The outcome of the check: the board is accepted, or refused for a reason. */
  datatype Verdict = Ok | Err(reason: Reason)

  predicate CellOk(c: Val)
  {
    c.Int? && 0 <= c.n <= 9
  }

  predicate RowOk(r: Val)
  {
    r.List? && |r.items| == 9 && forall j | 0 <= j < 9 :: CellOk(r.items[j])
  }

  /** A list of 9 lists, each of 9 integers in 0..9. */
  predicate WellFormed(v: Val)
  {
    v.List? && |v.items| == 9 && forall i | 0 <= i < 9 :: RowOk(v.items[i])
  }

  /** v is a list of 9 rows and every row before row i passes. */
  predicate RowsPassBefore(v: Val, i: nat)
  {
    v.List? && |v.items| == 9 && i < 9 && forall k | 0 <= k < i :: RowOk(v.items[k])
  }

  /** Rows before i pass, row i is a list of 9 cells and cells before j pass. */
  predicate CellsPassBefore(v: Val, i: nat, j: nat)
  {
    RowsPassBefore(v, i) && v.items[i].List? && |v.items[i].items| == 9 && j < 9 &&
    forall l | 0 <= l < j :: CellOk(v.items[i].items[l])
  }

  /** `reason` is the first check that v fails, in the order: outer list, row
      count, then for each row in turn its list check, its length and, cell by
      cell, the integer check and the range check. */
  predicate IsFirstViolation(v: Val, reason: Reason)
  {
    match reason
    case NotAList => !v.List?
    case WrongRowCount => v.List? && |v.items| != 9
    case RowNotList(i) => RowsPassBefore(v, i) && !v.items[i].List?
    case RowWrongLength(i) => RowsPassBefore(v, i) && v.items[i].List? && |v.items[i].items| != 9
    case CellNotInt(i, j) => CellsPassBefore(v, i, j) && !v.items[i].items[j].Int?
    case CellOutOfRange(i, j) =>
      CellsPassBefore(v, i, j) && v.items[i].items[j].Int? && !(0 <= v.items[i].items[j].n <= 9)
  }

  /** Fail-fast scan: accepts exactly the well-formed boards and otherwise
      reports the first failing check. The argument is a value, so it is not
      changed. */
  method ValidateBoard(board: Val) returns (r: Verdict)
    ensures r.Ok? <==> WellFormed(board)
    ensures r.Err? ==> IsFirstViolation(board, r.reason)
  {
    if !board.List? {
      return Err(NotAList);
    }
    if |board.items| != 9 {
      return Err(WrongRowCount);
    }
    for i := 0 to |board.items|
      invariant forall k | 0 <= k < i :: RowOk(board.items[k])
    {
      var row := board.items[i];
      if !row.List? {
        return Err(RowNotList(i));
      }
      if |row.items| != 9 {
        return Err(RowWrongLength(i));
      }
      for j := 0 to |row.items|
        invariant forall l | 0 <= l < j :: CellOk(row.items[l])
      {
        var cell := row.items[j];
        if !cell.Int? {
          return Err(CellNotInt(i, j));
        }
        if cell.n < 0 || cell.n > 9 {
          return Err(CellOutOfRange(i, j));
        }
      }
    }
    return Ok;
  }

  /** A board has at most one first violation, and a well-formed board has none. */
  lemma FirstViolationUnique(v: Val, a: Reason, b: Reason)
    requires IsFirstViolation(v, a)
    ensures !WellFormed(v)
    ensures IsFirstViolation(v, b) ==> a == b
  {
  }

  predicate IsDigit(ch: char)
  {
    '0' <= ch <= '9'
  }

  predicate AllDigits(s: string)
  {
    forall k | 0 <= k < |s| :: IsDigit(s[k])
  }

  function DigitChar(d: nat): (ch: char)
    requires d < 10
    ensures IsDigit(ch) && ch as int - '0' as int == d
  {
    ('0' as int + d) as char
  }

  /** The decimal text of n, without leading zeros, as an f-string prints it. */
  function Decimal(n: nat): (s: string)
    ensures 1 <= |s| && AllDigits(s)
    ensures (|s| == 1) == (n < 10)
    ensures n < 10 ==> s == [DigitChar(n)]
    ensures s[0] == '0' ==> n == 0
  {
    if n < 10 then [DigitChar(n)] else Decimal(n / 10) + [DigitChar(n % 10)]
  }

  /** The number a run of decimal digits denotes, most significant first. */
  function DigitsValue(s: string): nat
    requires AllDigits(s)
  {
    if s == [] then 0
    else 10 * DigitsValue(s[..|s| - 1]) + (s[|s| - 1] as int - '0' as int)
  }

  /** Reading the printed text back gives the number. */
  lemma {:induction false} DecimalValue(n: nat)
    ensures DigitsValue(Decimal(n)) == n
  {
    var s := Decimal(n);
    if n >= 10 {
      assert s[..|s| - 1] == Decimal(n / 10);
      DecimalValue(n / 10);
    }
  }

  /** Different numbers print differently. */
  lemma {:induction false} DecimalInjective(m: nat, n: nat)
    requires Decimal(m) == Decimal(n)
    ensures m == n
  {
    if m >= 10 && n >= 10 {
      var sm, sn := Decimal(m), Decimal(n);
      assert sm[|sm| - 1] == DigitChar(m % 10) && sn[|sn| - 1] == DigitChar(n % 10);
      assert sm[..|sm| - 1] == Decimal(m / 10) && sn[..|sn| - 1] == Decimal(n / 10);
      DecimalInjective(m / 10, n / 10);
    }
  }

  /** A run of digits followed by text that starts with a non-digit can be
      split back into the two parts. */
  lemma SplitAfterDigits(s: string, x: string, t: string, y: string)
    requires AllDigits(s) && AllDigits(t)
    requires |x| > 0 && |y| > 0 && !IsDigit(x[0]) && !IsDigit(y[0])
    requires s + x == t + y
    ensures s == t && x == y
  {
    assert s == (s + x)[..|s|] && t == (t + y)[..|t|];
    assert x == (s + x)[|s|..] && y == (t + y)[|t|..];
  }

  /** The text `validate_board` returns for each reason. The first character
      names the family of checks ('B' board, 'R' row, 'C' cell), and the row
      index is printed right after "Row " or "Cell [". */
  function Message(reason: Reason): (s: string)
    ensures |s| > 0
    ensures s[0] == if reason.NotAList? || reason.WrongRowCount? then 'B'
                    else if reason.RowNotList? || reason.RowWrongLength? then 'R' else 'C'
    ensures (reason.RowNotList? || reason.RowWrongLength?) ==>
      |s| > 4 + |Decimal(reason.row)| && s[..4] == "Row " && s[4..4 + |Decimal(reason.row)|] == Decimal(reason.row)
    ensures (reason.CellNotInt? || reason.CellOutOfRange?) ==>
      |s| > 6 + |Decimal(reason.row)| && s[..6] == "Cell [" && s[6..6 + |Decimal(reason.row)|] == Decimal(reason.row)
  {
    match reason
    case NotAList => "Board must be a list"
    case WrongRowCount => "Board must have 9 rows"
    case RowNotList(i) => "Row " + Decimal(i) + " must be a list"
    case RowWrongLength(i) => "Row " + Decimal(i) + " must have 9 columns"
    case CellNotInt(i, j) => "Cell [" + Decimal(i) + ("][" + Decimal(j) + "] must be an integer")
    case CellOutOfRange(i, j) => "Cell [" + Decimal(i) + ("][" + Decimal(j) + "] must be between 0 and 9")
  }

  /** Text after a common prefix, of the shape digits + tail, splits back. */
  lemma SplitAfterPrefix(p: string, s: string, x: string, t: string, y: string)
    requires AllDigits(s) && AllDigits(t)
    requires |x| > 0 && |y| > 0 && !IsDigit(x[0]) && !IsDigit(y[0])
    requires p + s + x == p + t + y
    ensures s == t && x == y
  {
    assert (p + s + x)[|p|..] == s + x;
    assert (p + t + y)[|p|..] == t + y;
    SplitAfterDigits(s, x, t, y);
  }

  /** The message names the reason: the kind of violation and its row and cell. */
  lemma MessageInjective(a: Reason, b: Reason)
    requires Message(a) == Message(b)
    ensures a == b
  {
    match a
    case NotAList =>
    case WrongRowCount =>
    case RowNotList(i) =>
      RowMessageInjective(a, b);
    case RowWrongLength(i) =>
      RowMessageInjective(a, b);
    case CellNotInt(i, j) =>
      CellMessageInjective(a, b);
    case CellOutOfRange(i, j) =>
      CellMessageInjective(a, b);
  }

  function RowTail(r: Reason): string
  {
    if r.RowNotList? then " must be a list" else " must have 9 columns"
  }

  function CellTail(r: Reason): string
  {
    if r.CellNotInt? then "] must be an integer" else "] must be between 0 and 9"
  }

  lemma RowMessageInjective(a: Reason, b: Reason)
    requires a.RowNotList? || a.RowWrongLength?
    requires b.RowNotList? || b.RowWrongLength?
    requires Message(a) == Message(b)
    ensures a == b
  {
    assert Message(a) == "Row " + Decimal(a.row) + RowTail(a);
    assert Message(b) == "Row " + Decimal(b.row) + RowTail(b);
    SplitAfterPrefix("Row ", Decimal(a.row), RowTail(a), Decimal(b.row), RowTail(b));
    DecimalInjective(a.row, b.row);
  }

  lemma CellMessageInjective(a: Reason, b: Reason)
    requires a.CellNotInt? || a.CellOutOfRange?
    requires b.CellNotInt? || b.CellOutOfRange?
    requires Message(a) == Message(b)
    ensures a == b
  {
    var x, y := "][" + Decimal(a.col) + CellTail(a), "][" + Decimal(b.col) + CellTail(b);
    assert Message(a) == "Cell [" + Decimal(a.row) + x;
    assert Message(b) == "Cell [" + Decimal(b.row) + y;
    SplitAfterPrefix("Cell [", Decimal(a.row), x, Decimal(b.row), y);
    DecimalInjective(a.row, b.row);
    SplitAfterPrefix("][", Decimal(a.col), CellTail(a), Decimal(b.col), CellTail(b));
    DecimalInjective(a.col, b.col);
  }
}
