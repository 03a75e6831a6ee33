/** Move text: two algebraic squares (file a-h, rank 1-8, files in either case)
    separated by a run of whitespace, read into a pair of board coordinates. */
module Notation {
  import opened Board

  datatype Option<T> = None | Some(value: T)

  /** A move as read from text: the origin and the destination. */
  datatype Move = Move(from: Pos, to: Pos)

  /** The characters of the `\s` class of ECMAScript regular expressions: the
      WhiteSpace characters (tab, vertical tab, form feed, space, no-break space,
      the byte order mark and the other space separators) and the LineTerminator
      characters (line feed, carriage return, line and paragraph separators). */
  predicate IsWhitespace(c: char) {
    || c == '\t' || c == '\n' || c == '\U{000B}' || c == '\U{000C}' || c == '\r'
    || c == ' ' || c == '\U{00A0}' || c == '\U{1680}' || ('\U{2000}' <= c <= '\U{200A}')
    || c == '\U{2028}' || c == '\U{2029}' || c == '\U{202F}' || c == '\U{205F}'
    || c == '\U{3000}' || c == '\U{FEFF}'
  }

  /** A file letter, matched without regard to case. */
  predicate IsFile(c: char) {
    'a' <= c <= 'h' || 'A' <= c <= 'H'
  }

  predicate IsRank(c: char) {
    '1' <= c <= '8'
  }

  predicate IsUpper(c: char) {
    'A' <= c <= 'Z'
  }

  /** Lower-casing of the ASCII letters; every other character is left alone. */
  function Lower(c: char): char {
    if IsUpper(c) then (c as int + 32) as char else c
  }

  /** The coordinate of square `f r`: row 8 minus the rank digit, column the
      lower-cased letter minus 'a'. */
  function SquareOf(f: char, r: char): Pos
    requires IsFile(f) && IsRank(r)
  {
    Pos(Size - (r as int - '0' as int), Lower(f) as int - 'a' as int)
  }

  /** The square that starts at index i of s, if the two characters there form one. */
  function SquareAt(s: string, i: nat): Option<Pos>
    requires i + 2 <= |s|
  {
    if IsFile(s[i]) && IsRank(s[i + 1]) then Some(SquareOf(s[i], s[i + 1])) else None
  }

  /** The end of the run of whitespace that starts at index i of s. */
  function SkipWhitespace(s: string, i: nat): (j: nat)
    requires i <= |s|
    ensures i <= j <= |s|
    ensures forall k :: i <= k < j ==> IsWhitespace(s[k])
    ensures j < |s| ==> !IsWhitespace(s[j])
    decreases |s| - i
  {
    if i < |s| && IsWhitespace(s[i]) then SkipWhitespace(s, i + 1) else i
  }

  /** Reads move text the way the anchored pattern `^([a-h][1-8])\s+([a-h][1-8])$`
      with the case-insensitive flag does: a square at the start, a non-empty
      run of whitespace, a square that ends the text. Any other text gives None. */
  function ParseMove(s: string): Option<Move> {
    if |s| < 2 then None
    else
      match SquareAt(s, 0)
      case None => None
      case Some(from) =>
        var j := SkipWhitespace(s, 2);
        if j == 2 || j + 2 != |s| then None
        else
          match SquareAt(s, j)
          case None => None
          case Some(to) => Some(Move(from, to))
  }

  /** The shape of acceptable move text, stated position by position. */
  predicate IsMoveText(s: string) {
    && |s| >= 5
    && IsFile(s[0]) && IsRank(s[1])
    && (forall k :: 2 <= k < |s| - 2 ==> IsWhitespace(s[k]))
    && IsFile(s[|s| - 2]) && IsRank(s[|s| - 1])
  }

  /** The parser accepts exactly the text of the right shape, and then reads the
      first two and the last two characters as the two squares. */
  lemma ParseMoveSpec(s: string)
    ensures ParseMove(s) ==
              if IsMoveText(s) then Some(Move(SquareOf(s[0], s[1]), SquareOf(s[|s| - 2], s[|s| - 1]))) else None
  {
    if |s| >= 2 && SquareAt(s, 0).Some? {
      var j := SkipWhitespace(s, 2);
      if IsMoveText(s) {
        assert !IsWhitespace(s[|s| - 2]);
        assert j == |s| - 2;
      }
    }
  }

  /** Both squares of a parsed move lie on the board. */
  lemma ParsedInside(s: string, m: Move)
    requires ParseMove(s) == Some(m)
    ensures IsInside(m.from.row, m.from.col) && IsInside(m.to.row, m.to.col)
  {
    ParseMoveSpec(s);
  }

  /** The ASCII lower-casing of a whole text. */
  function LowerText(s: string): (t: string)
    ensures |t| == |s| && forall k :: 0 <= k < |s| ==> t[k] == Lower(s[k])
  {
    seq(|s|, k requires 0 <= k < |s| => Lower(s[k]))
  }

  /** Lower-casing changes neither what class a character is in nor the square it names. */
  lemma LowerChar(c: char)
    ensures IsWhitespace(Lower(c)) <==> IsWhitespace(c)
    ensures IsFile(Lower(c)) <==> IsFile(c)
    ensures IsRank(Lower(c)) <==> IsRank(c)
    ensures Lower(Lower(c)) == Lower(c)
  {
  }

  /** Upper- and lower-case spellings of a move read the same. */
  lemma ParseIgnoresCase(s: string)
    ensures ParseMove(LowerText(s)) == ParseMove(s)
  {
    var t := LowerText(s);
    ParseMoveSpec(s);
    ParseMoveSpec(t);
    forall k | 0 <= k < |s|
      ensures IsWhitespace(t[k]) <==> IsWhitespace(s[k])
      ensures IsFile(t[k]) <==> IsFile(s[k])
      ensures IsRank(t[k]) <==> IsRank(s[k])
      ensures Lower(t[k]) == Lower(s[k])
    {
      LowerChar(s[k]);
    }
    if IsMoveText(s) {
      assert IsMoveText(t);
      assert SquareOf(t[0], t[1]) == SquareOf(s[0], s[1]);
      assert SquareOf(t[|t| - 2], t[|t| - 1]) == SquareOf(s[|s| - 2], s[|s| - 1]);
    } else {
      assert !IsMoveText(t);
    }
  }

  /** The name of an on-board square, with its file letter in upper or lower case. */
  function SquareName(p: Pos, upper: bool): (name: string)
    requires IsInside(p.row, p.col)
    ensures |name| == 2 && IsFile(name[0]) && IsRank(name[1]) && IsUpper(name[0]) == upper
    ensures SquareOf(name[0], name[1]) == p
  {
    [((if upper then 'A' else 'a') as int + p.col) as char, RankLabel(p.row)]
  }

  /** Every square read from text is on the board, and naming it again, with the
      letter in the case it was written in, gives back the same two characters. */
  lemma SquareNameRoundTrip(f: char, r: char)
    requires IsFile(f) && IsRank(r)
    ensures IsInside(SquareOf(f, r).row, SquareOf(f, r).col)
    ensures SquareName(SquareOf(f, r), IsUpper(f)) == [f, r]
  {
  }

  /** Two square names around any non-empty run of whitespace parse to the move
      between those squares. */
  lemma ParseMoveText(p: Pos, q: Pos, sep: string, upperFrom: bool, upperTo: bool)
    requires IsInside(p.row, p.col) && IsInside(q.row, q.col)
    requires |sep| > 0 && forall k :: 0 <= k < |sep| ==> IsWhitespace(sep[k])
    ensures ParseMove(SquareName(p, upperFrom) + sep + SquareName(q, upperTo)) == Some(Move(p, q))
  {
    var s := SquareName(p, upperFrom) + sep + SquareName(q, upperTo);
    assert forall k :: 2 <= k < |s| - 2 ==> s[k] == sep[k - 2];
    ParseMoveSpec(s);
  }

  /** Conversely, text that parses is exactly the two square names, spelled in the
      case they were written in, around the whitespace between them. */
  lemma ParsedMoveText(s: string, m: Move)
    requires ParseMove(s) == Some(m)
    ensures IsInside(m.from.row, m.from.col) && IsInside(m.to.row, m.to.col)
    ensures s == SquareName(m.from, IsUpper(s[0])) + s[2..|s| - 2] + SquareName(m.to, IsUpper(s[|s| - 2]))
    ensures |s| > 4 && forall k :: 2 <= k < |s| - 2 ==> IsWhitespace(s[k])
  {
    ParseMoveSpec(s);
    SquareNameRoundTrip(s[0], s[1]);
    SquareNameRoundTrip(s[|s| - 2], s[|s| - 1]);
    assert s == s[..2] + s[2..|s| - 2] + s[|s| - 2..];
  }

  /** Sample readings: the opening move e3-d4 of white, a two-row move, upper case,
      a doubled space; and text the grammar refuses. */
  lemma ParseExamples()
    ensures ParseMove("e3 d4") == Some(Move(Pos(5, 4), Pos(4, 3)))
    ensures ParseMove("e3 e5") == Some(Move(Pos(5, 4), Pos(3, 4)))
    ensures ParseMove("E3 D4") == Some(Move(Pos(5, 4), Pos(4, 3)))
    ensures ParseMove("e3  d4") == Some(Move(Pos(5, 4), Pos(4, 3)))
    ensures ParseMove("e3-d4") == None
    ensures ParseMove("i3 d4") == None
    ensures ParseMove("e9 d4") == None
    ensures ParseMove(" e3 d4") == None
    ensures ParseMove("e3 d4 ") == None
    ensures ParseMove("e3d4") == None
  {
    ParseMoveSpec("e3 d4");
    ParseMoveSpec("e3 e5");
    ParseMoveSpec("E3 D4");
    ParseMoveSpec("e3  d4");
    ParseMoveSpec("e3-d4");
    ParseMoveSpec("e3 d4 ");
  }
}
