/**
 * `convertStringToNode`: one line of the graph file, `id=n1 n2 ...`, read into
 * a `Node`. The text before the first `=` is the vertex id; the text after it
 * is split at spaces, empty pieces are skipped and, for a weighted graph,
 * every second remaining piece is a weight and is skipped too.
 *
 * Java's `String.split`, `String.trim` and `Integer.parseInt` are written out
 * below for one-character separators and ASCII digits. Where the original
 * throws (no text before `=`, a piece that is not a number, a number outside
 * the range of `int`), the model answers `None`.
 */
module LineParser {

  datatype Option<T> = None | Some(value: T)

  /** The range of a Java `int`. */
  const MinInt: int := -0x8000_0000
  const MaxInt: int := 0x7fff_ffff

  /** A vertex read from the file: its id and the neighbour entries listed for it. */
  class Node {
    const nodeId: int
    var neighbors: seq<int>

    constructor (id: int)
      ensures nodeId == id && neighbors == []
    {
      nodeId := id;
      neighbors := [];
    }

    method AddNeighbor(v: int)
      modifies this
      ensures neighbors == old(neighbors) + [v]
    {
      neighbors := neighbors + [v];
    }
  }

  // ---------------------------------------------------------------------
  // String.split with a one-character separator.
  // ---------------------------------------------------------------------

  /** Every piece of `s` between occurrences of `sep`, empty pieces included. */
  function SplitOn(s: string, sep: char): (pieces: seq<string>)
    ensures |pieces| > 0
  {
    if s == [] then [[]]
    else
      var rest := SplitOn(s[1..], sep);
      if s[0] == sep then [[]] + rest
      else [[s[0]] + rest[0]] + rest[1..]
  }

  /** No piece contains the separator. */
  lemma {:induction false} SplitOnSeparatorFree(s: string, sep: char)
    ensures forall k :: 0 <= k < |SplitOn(s, sep)| ==> sep !in SplitOn(s, sep)[k]
    decreases |s|
  {
    if s != [] {
      SplitOnSeparatorFree(s[1..], sep);
      var rest := SplitOn(s[1..], sep);
      if s[0] != sep {
        assert sep !in [s[0]] + rest[0];
        assert forall k :: 1 <= k < |rest| ==> SplitOn(s, sep)[k] == rest[k];
      }
    }
  }

  /** The pieces put back together with `sep` between them. */
  function Join(pieces: seq<string>, sep: char): string
  {
    if |pieces| == 0 then []
    else if |pieces| == 1 then pieces[0]
    else pieces[0] + [sep] + Join(pieces[1..], sep)
  }

  /** Splitting loses nothing: joining the pieces gives the text back. */
  lemma {:induction false} JoinSplitOn(s: string, sep: char)
    ensures Join(SplitOn(s, sep), sep) == s
    decreases |s|
  {
    if s != [] {
      var rest := SplitOn(s[1..], sep);
      JoinSplitOn(s[1..], sep);
      if s[0] == sep {
        assert s == [sep] + s[1..];
      } else if |rest| == 1 {
        assert s == [s[0]] + s[1..];
      } else {
        assert Join(rest, sep) == rest[0] + [sep] + Join(rest[1..], sep);
        assert s == [s[0]] + s[1..];
      }
    }
  }

  /** A piece without the separator, followed by the separator, becomes a piece of its own. */
  lemma {:induction false} SplitOnPiece(p: string, sep: char, r: string)
    requires sep !in p
    ensures SplitOn(p + [sep] + r, sep) == [p] + SplitOn(r, sep)
    decreases |p|
  {
    var s := p + [sep] + r;
    if p == [] {
      assert s == [sep] + r && s[1..] == r;
    } else {
      assert s[0] == p[0] && s[1..] == p[1..] + [sep] + r;
      SplitOnPiece(p[1..], sep, r);
      assert [p[0]] + p[1..] == p;
    }
  }

  /** Text without the separator is a single piece. */
  lemma {:induction false} SplitOnWhole(p: string, sep: char)
    requires sep !in p
    ensures SplitOn(p, sep) == [p]
    decreases |p|
  {
    if p != [] {
      SplitOnWhole(p[1..], sep);
      assert [p[0]] + p[1..] == p;
    }
  }

  /** Pieces without the separator are what splitting their join gives back. */
  lemma {:induction false} SplitOnJoin(pieces: seq<string>, sep: char)
    requires |pieces| > 0 && forall p :: p in pieces ==> sep !in p
    ensures SplitOn(Join(pieces, sep), sep) == pieces
    decreases |pieces|
  {
    if |pieces| == 1 {
      SplitOnWhole(pieces[0], sep);
    } else {
      assert pieces[0] in pieces;
      assert forall p :: p in pieces[1..] ==> p in pieces;
      SplitOnJoin(pieces[1..], sep);
      SplitOnPiece(pieces[0], sep, Join(pieces[1..], sep));
      assert [pieces[0]] + pieces[1..] == pieces;
    }
  }

  /** Java's `split` drops the empty pieces at the end of the result. */
  function DropTrailingEmpty(pieces: seq<string>): (r: seq<string>)
    ensures r <= pieces
    ensures r == [] || r[|r| - 1] != []
    ensures forall k :: |r| <= k < |pieces| ==> pieces[k] == []
  {
    if pieces != [] && pieces[|pieces| - 1] == [] then DropTrailingEmpty(pieces[..|pieces| - 1])
    else pieces
  }

  /**
   * `s.split(sep)`: the whole text when `sep` does not occur in it, and
   * otherwise every piece between separators up to the last non-empty one.
   */
  function JavaSplit(s: string, sep: char): (pieces: seq<string>)
    ensures sep !in s ==> pieces == [s]
    ensures sep in s ==> pieces == [] || pieces[|pieces| - 1] != []
    ensures |pieces| <= |SplitOn(s, sep)|
    ensures sep in s ==> pieces <= SplitOn(s, sep)
                         && forall k :: |pieces| <= k < |SplitOn(s, sep)| ==> SplitOn(s, sep)[k] == []
    ensures forall k :: 0 <= k < |pieces| ==> sep !in pieces[k]
  {
    SplitOnSeparatorFree(s, sep);
    if sep !in s then [s] else DropTrailingEmpty(SplitOn(s, sep))
  }

  /** Splitting a join of non-empty pieces without the separator gives the pieces back. */
  lemma JavaSplitJoin(pieces: seq<string>, sep: char)
    requires |pieces| > 0 && forall p :: p in pieces ==> sep !in p && p != []
    ensures JavaSplit(Join(pieces, sep), sep) == pieces
  {
    SplitOnJoin(pieces, sep);
    if sep !in Join(pieces, sep) {
      SplitOnWhole(Join(pieces, sep), sep);
    } else {
      assert pieces[|pieces| - 1] in pieces;
    }
  }

  // ---------------------------------------------------------------------
  // String.trim and Integer.parseInt.
  // ---------------------------------------------------------------------

  /** `String.trim` removes the characters up to U+0020 at both ends. */
  predicate IsBlank(c: char)
  {
    c <= ' '
  }

  /** The first position at or after `i` that does not hold a blank (`|s|` if there is none). */
  function SkipBlanks(s: string, i: nat): (r: nat)
    requires i <= |s|
    ensures i <= r <= |s| && (r == |s| || !IsBlank(s[r]))
    ensures forall k :: i <= k < r ==> IsBlank(s[k])
    decreases |s| - i
  {
    if i < |s| && IsBlank(s[i]) then SkipBlanks(s, i + 1) else i
  }

  /** The end of `s[..j]` once the blanks at its end, down to position `lo`, are dropped. */
  function SkipBlanksBack(s: string, lo: nat, j: nat): (r: nat)
    requires lo <= j <= |s|
    ensures lo <= r <= j && (r == lo || !IsBlank(s[r - 1]))
    ensures forall k :: r <= k < j ==> IsBlank(s[k])
  {
    if j > lo && IsBlank(s[j - 1]) then SkipBlanksBack(s, lo, j - 1) else j
  }

  /** `s.trim()`: the text from its first to its last character that is not a blank. */
  function Trim(s: string): (t: string)
    ensures |t| <= |s|
    ensures t == [] || (!IsBlank(t[0]) && !IsBlank(t[|t| - 1]))
  {
    var a := SkipBlanks(s, 0);
    s[a..SkipBlanksBack(s, a, |s|)]
  }

  /**
   * Trimming keeps a stretch `s[a..b]` that neither starts nor ends with a
   * blank, and removes only blanks around it.
   */
  lemma TrimKeepsMiddle(s: string) returns (a: nat, b: nat)
    ensures a <= b <= |s| && Trim(s) == s[a..b]
    ensures a < b ==> !IsBlank(s[a]) && !IsBlank(s[b - 1])
    ensures forall i :: 0 <= i < a ==> IsBlank(s[i])
    ensures forall i :: b <= i < |s| ==> IsBlank(s[i])
  {
    a := SkipBlanks(s, 0);
    b := SkipBlanksBack(s, a, |s|);
  }

  /** Text that neither starts nor ends with a blank is left as it is. */
  lemma TrimUnblanked(s: string)
    requires s == [] || (!IsBlank(s[0]) && !IsBlank(s[|s| - 1]))
    ensures Trim(s) == s
  {
  }

  predicate IsDigit(c: char)
  {
    '0' <= c <= '9'
  }

  /** The decimal value of `s[lo..hi]`; `None` if some character there is not a digit. */
  function DigitsValue(s: string, lo: nat, hi: nat): Option<nat>
    requires lo <= hi <= |s|
  {
    if hi == lo then Some(0)
    else
      match DigitsValue(s, lo, hi - 1)
      case None => None
      case Some(n) => if IsDigit(s[hi - 1]) then Some(n * 10 + (s[hi - 1] as int - '0' as int)) else None
  }

  /** A stretch has a decimal value exactly when it is made of digits only. */
  lemma {:induction false} DigitsValueIffDigits(s: string, lo: nat, hi: nat)
    requires lo <= hi <= |s|
    ensures DigitsValue(s, lo, hi).Some? <==> forall i :: lo <= i < hi ==> IsDigit(s[i])
  {
    if hi > lo {
      DigitsValueIffDigits(s, lo, hi - 1);
    }
  }

  /** The value depends only on the characters of the stretch. */
  lemma {:induction false} DigitsValueShift(s: string, t: string, d: nat, lo: nat, hi: nat)
    requires lo <= hi <= |t| && hi + d <= |s|
    requires forall i :: lo <= i < hi ==> s[i + d] == t[i]
    ensures DigitsValue(s, lo + d, hi + d) == DigitsValue(t, lo, hi)
  {
    if hi > lo {
      DigitsValueShift(s, t, d, lo, hi - 1);
      assert s[hi - 1 + d] == t[hi - 1];
    }
  }

  /** The length of the optional leading sign of `s`. */
  function SignLength(s: string): nat
  {
    if s != [] && (s[0] == '-' || s[0] == '+') then 1 else 0
  }

  /** The magnitude `n` with the sign `s` starts with. */
  function Signed(s: string, n: nat): int
  {
    if s != [] && s[0] == '-' then -(n as int) else n
  }

  /**
   * `Integer.parseInt(s)`: an optional sign, at least one digit and nothing
   * else, with a value inside the range of `int`; `None` where it throws.
   */
  function ParseInt(s: string): (r: Option<int>)
    ensures r.Some? ==> MinInt <= r.value <= MaxInt
  {
    if s == [] then None
    else
      var start := SignLength(s);
      if start == |s| then None
      else
        match DigitsValue(s, start, |s|)
        case None => None
        case Some(n) =>
          var v := Signed(s, n);
          if MinInt <= v <= MaxInt then Some(v) else None
  }

  /**
   * When `parseInt` succeeds: the text is not empty, something follows the
   * sign, everything after the sign is a digit, and the signed value fits in
   * an `int`. The value is then the signed decimal value of the digits, so
   * leading zeros, a `+` and `-0` are all accepted.
   */
  lemma ParseIntSucceeds(s: string)
    ensures ParseInt(s).Some? <==>
              s != [] && SignLength(s) < |s|
              && (forall i :: SignLength(s) <= i < |s| ==> IsDigit(s[i]))
              && DigitsValue(s, SignLength(s), |s|).Some?
              && MinInt <= Signed(s, DigitsValue(s, SignLength(s), |s|).value) <= MaxInt
    ensures ParseInt(s).Some? ==>
              DigitsValue(s, SignLength(s), |s|).Some?
              && ParseInt(s).value == Signed(s, DigitsValue(s, SignLength(s), |s|).value)
  {
    if s != [] && SignLength(s) < |s| {
      DigitsValueIffDigits(s, SignLength(s), |s|);
    }
  }

  /** Texts `parseInt` reads other than as `Integer.toString` writes them, and texts it refuses. */
  lemma ParseIntExamples()
    ensures ParseInt("+5") == Some(5)
    ensures ParseInt("007") == Some(7)
    ensures ParseInt("-0") == Some(0)
    ensures ParseInt("") == None && ParseInt("-") == None && ParseInt("1 2") == None
  {
    assert DigitsValue("+5", 1, 2) == Some(5);
    assert DigitsValue("007", 0, 3) == Some(7);
    assert DigitsValue("-0", 1, 2) == Some(0);
    assert DigitsValue("1 2", 0, 2) == None;
  }

  /** The decimal digits of `n`, as `Integer.toString` writes them. */
  function ShowNat(n: nat): (s: string)
    ensures |s| > 0 && forall i :: 0 <= i < |s| ==> IsDigit(s[i])
  {
    if n < 10 then [('0' as int + n) as char]
    else ShowNat(n / 10) + [('0' as int + n % 10) as char]
  }

  /** `Integer.toString(v)`. */
  function ShowInt(v: int): (s: string)
    ensures |s| > 0 && !IsBlank(s[0]) && !IsBlank(s[|s| - 1])
    ensures ' ' !in s && '=' !in s
  {
    if v < 0 then "-" + ShowNat(-v) else ShowNat(v)
  }

  lemma {:induction false} DigitsShowNat(n: nat)
    ensures DigitsValue(ShowNat(n), 0, |ShowNat(n)|) == Some(n)
  {
    if n >= 10 {
      DigitsShowNat(n / 10);
      var s := ShowNat(n);
      var t := ShowNat(n / 10);
      DigitsValueShift(s, t, 0, 0, |t|);
    }
  }

  lemma ParseShowNat(n: nat)
    requires n <= MaxInt
    ensures ParseInt(ShowNat(n)) == Some(n)
  {
    var s := ShowNat(n);
    DigitsShowNat(n);
    assert IsDigit(s[0]);
  }

  lemma ParseShowNegative(v: int)
    requires MinInt <= v < 0
    ensures ParseInt(ShowInt(v)) == Some(v)
  {
    var t := ShowNat(-v);
    var s := ShowInt(v);
    assert s == "-" + t;
    DigitsShowNat(-v);
    DigitsValueShift(s, t, 1, 0, |t|);
    assert DigitsValue(s, 1, |s|) == Some(-v);
  }

  /** Reading back a number written by `Integer.toString` gives the number. */
  lemma ParseShowInt(v: int)
    requires MinInt <= v <= MaxInt
    ensures ParseInt(ShowInt(v)) == Some(v)
    ensures Trim(ShowInt(v)) == ShowInt(v)
  {
    TrimUnblanked(ShowInt(v));
    if v < 0 {
      ParseShowNegative(v);
    } else {
      ParseShowNat(v);
    }
  }

  // ---------------------------------------------------------------------
  // Which pieces become neighbours.
  // ---------------------------------------------------------------------

  /** The non-empty pieces, in order. */
  function NonEmpty(pieces: seq<string>): (r: seq<string>)
    ensures |r| <= |pieces|
  {
    if pieces == [] then []
    else
      var last := pieces[|pieces| - 1];
      NonEmpty(pieces[..|pieces| - 1]) + (if last == [] then [] else [last])
  }

  /** Exactly the non-empty pieces survive. */
  lemma {:induction false} NonEmptyMembers(pieces: seq<string>)
    ensures forall p :: p in NonEmpty(pieces) <==> p in pieces && p != []
  {
    if pieces != [] {
      var init := pieces[..|pieces| - 1];
      NonEmptyMembers(init);
      assert pieces == init + [pieces[|pieces| - 1]];
    }
  }

  /** Entries 0, 2, 4, ... of `s`: the first, third, fifth, ... */
  function EvenEntries(s: seq<string>): (r: seq<string>)
    ensures |r| == (|s| + 1) / 2
  {
    if s == [] then []
    else EvenEntries(s[..|s| - 1]) + (if (|s| - 1) % 2 == 0 then [s[|s| - 1]] else [])
  }

  lemma {:induction false} EvenEntriesAt(s: seq<string>)
    ensures forall k :: 0 <= k < |EvenEntries(s)| ==> EvenEntries(s)[k] == s[2 * k]
  {
    if s != [] {
      EvenEntriesAt(s[..|s| - 1]);
    }
  }

  /**
   * The pieces whose numbers become neighbours: every non-empty piece, or,
   * for a weighted graph, the first, third, fifth, ... non-empty piece.
   */
  function KeptFields(pieces: seq<string>, weighted: bool): seq<string>
  {
    if weighted then EvenEntries(NonEmpty(pieces)) else NonEmpty(pieces)
  }

  /** What happens to one more piece: skipped when empty or when it is a weight, kept otherwise. */
  lemma NonEmptyStep(pieces: seq<string>, t: nat)
    requires t < |pieces|
    ensures NonEmpty(pieces[..t + 1]) == NonEmpty(pieces[..t]) + (if pieces[t] == [] then [] else [pieces[t]])
  {
    assert pieces[..t + 1][..t] == pieces[..t];
  }

  lemma EvenEntriesStep(s: seq<string>, x: string)
    ensures EvenEntries(s + [x]) == EvenEntries(s) + (if |s| % 2 == 0 then [x] else [])
  {
    assert (s + [x])[..|s|] == s;
  }

  lemma KeptFieldsStep(pieces: seq<string>, t: nat, weighted: bool)
    requires t < |pieces|
    ensures |NonEmpty(pieces[..t + 1])| == |NonEmpty(pieces[..t])| + (if pieces[t] == [] then 0 else 1)
    ensures KeptFields(pieces[..t + 1], weighted)
         == KeptFields(pieces[..t], weighted)
            + (if pieces[t] == [] || (weighted && (|NonEmpty(pieces[..t])| + 1) % 2 == 0) then [] else [pieces[t]])
  {
    NonEmptyStep(pieces, t);
    var before := NonEmpty(pieces[..t]);
    if pieces[t] != [] {
      EvenEntriesStep(before, pieces[t]);
      assert ((|before| + 1) % 2 == 0) == (|before| % 2 != 0);
    } else {
      assert NonEmpty(pieces[..t + 1]) == before;
    }
  }

  /** `Integer.parseInt(piece.trim())`: what a piece of the line reads as. */
  function PieceNumber(piece: string): Option<int>
  {
    ParseInt(Trim(piece))
  }

  // The rest of this section, and the loop below, take the reading of one
  // piece as a parameter `read`: the line reads its pieces with `PieceNumber`.

  /** Every piece reads as a number. */
  predicate AllNumbers(fields: seq<string>, read: string -> Option<int>)
  {
    forall k :: 0 <= k < |fields| ==> read(fields[k]).Some?
  }

  /** The numbers the pieces read as; `None` if any of them is not a number. */
  function ParseAll(fields: seq<string>, read: string -> Option<int>): (r: Option<seq<int>>)
    ensures r.Some? ==> |r.value| == |fields|
  {
    if fields == [] then Some([])
    else
      var last := |fields| - 1;
      match ParseAll(fields[..last], read)
      case None => None
      case Some(ns) =>
        match read(fields[last])
        case None => None
        case Some(v) => Some(ns + [v])
  }

  /** One more piece: its number is appended, or the whole list fails. */
  lemma ParseAllSnoc(fields: seq<string>, f: string, read: string -> Option<int>)
    ensures ParseAll(fields + [f], read)
         == if ParseAll(fields, read).Some? && read(f).Some?
            then Some(ParseAll(fields, read).value + [read(f).value])
            else None
  {
    assert (fields + [f])[..|fields|] == fields;
  }

  /** One more round: a piece that is read adds its number, or fails the whole line. */
  function ReadPiece(before: Option<seq<int>>, isRead: bool, piece: string, read: string -> Option<int>): Option<seq<int>>
  {
    match before
    case None => None
    case Some(ns) =>
      if !isRead then Some(ns)
      else
        match read(piece)
        case None => None
        case Some(v) => Some(ns + [v])
  }

  /** What the next piece does to the numbers of the kept pieces. */
  lemma ParseKeptStep(pieces: seq<string>, t: nat, weighted: bool, read: string -> Option<int>)
    requires t < |pieces|
    ensures ParseAll(KeptFields(pieces[..t + 1], weighted), read)
         == ReadPiece(ParseAll(KeptFields(pieces[..t], weighted), read),
                      pieces[t] != [] && !(weighted && (|NonEmpty(pieces[..t])| + 1) % 2 == 0),
                      pieces[t], read)
  {
    KeptFieldsStep(pieces, t, weighted);
    var kept := KeptFields(pieces[..t], weighted);
    if pieces[t] == [] || (weighted && (|NonEmpty(pieces[..t])| + 1) % 2 == 0) {
      assert KeptFields(pieces[..t + 1], weighted) == kept + [];
      assert kept + [] == kept;
    } else {
      ParseAllSnoc(kept, pieces[t], read);
    }
  }

  /** Entry `k` of the result is the number of piece `k`. */
  lemma {:induction false} ParseAllEntries(fields: seq<string>, read: string -> Option<int>)
    requires ParseAll(fields, read).Some?
    ensures forall k :: 0 <= k < |fields| ==> read(fields[k]) == Some(ParseAll(fields, read).value[k])
  {
    if fields != [] {
      var last := |fields| - 1;
      ParseAllEntries(fields[..last], read);
      var ns := ParseAll(fields[..last], read).value;
      forall k | 0 <= k < |fields| ensures read(fields[k]) == Some(ParseAll(fields, read).value[k]) {
        if k < last {
          assert fields[..last][k] == fields[k];
        }
      }
    }
  }

  /** The pieces have numbers exactly when every one of them is a number. */
  lemma {:induction false} ParseAllIffNumbers(fields: seq<string>, read: string -> Option<int>)
    ensures ParseAll(fields, read).Some? <==> AllNumbers(fields, read)
  {
    if fields != [] {
      var last := |fields| - 1;
      var init := fields[..last];
      ParseAllIffNumbers(init, read);
      assert AllNumbers(fields, read) <==> AllNumbers(init, read) && read(fields[last]).Some? by {
        assert forall k :: 0 <= k < last ==> init[k] == fields[k];
      }
    }
  }

  // ---------------------------------------------------------------------
  // The loop over the pieces, round by round.
  // ---------------------------------------------------------------------

  /** How many of the first `n` pieces are non-empty: `cntNumbers` after `n` rounds. */
  function CountNonEmpty(pieces: seq<string>, n: nat): (c: nat)
    requires n <= |pieces|
    ensures c <= n
  {
    if n == 0 then 0 else CountNonEmpty(pieces, n - 1) + (if pieces[n - 1] == [] then 0 else 1)
  }

  lemma {:induction false} CountNonEmptyIsLength(pieces: seq<string>, n: nat)
    requires n <= |pieces|
    ensures CountNonEmpty(pieces, n) == |NonEmpty(pieces[..n])|
  {
    if n > 0 {
      CountNonEmptyIsLength(pieces, n - 1);
      NonEmptyStep(pieces, n - 1);
    } else {
      assert pieces[..0] == [];
    }
  }

  /** Round `k` reads its piece: the piece is not empty and, in a weighted graph, not a weight. */
  predicate ReadsPiece(pieces: seq<string>, k: nat, weighted: bool)
    requires k < |pieces|
  {
    pieces[k] != [] && !(weighted && (CountNonEmpty(pieces, k) + 1) % 2 == 0)
  }

  /** What the loop has read after `n` rounds: the neighbours so far, or `None` once a piece is not a number. */
  function ReadNeighbours(pieces: seq<string>, n: nat, weighted: bool, read: string -> Option<int>): Option<seq<int>>
    requires n <= |pieces|
  {
    if n == 0 then Some([])
    else ReadPiece(ReadNeighbours(pieces, n - 1, weighted, read), ReadsPiece(pieces, n - 1, weighted), pieces[n - 1], read)
  }

  /** Round `t` of the loop: a skipped piece changes nothing, a read one adds its number or fails. */
  lemma ReadRound(pieces: seq<string>, t: nat, weighted: bool, read: string -> Option<int>)
    requires t < |pieces|
    ensures CountNonEmpty(pieces, t + 1) == CountNonEmpty(pieces, t) + (if pieces[t] == [] then 0 else 1)
    ensures !ReadsPiece(pieces, t, weighted) ==> ReadNeighbours(pieces, t + 1, weighted, read) == ReadNeighbours(pieces, t, weighted, read)
    ensures ReadsPiece(pieces, t, weighted) && read(pieces[t]).None? ==> ReadNeighbours(pieces, t + 1, weighted, read).None?
    ensures ReadsPiece(pieces, t, weighted) && read(pieces[t]).Some? && ReadNeighbours(pieces, t, weighted, read).Some? ==>
              ReadNeighbours(pieces, t + 1, weighted, read)
              == Some(ReadNeighbours(pieces, t, weighted, read).value + [read(pieces[t]).value])
  {
  }

  /** If the first `t` rounds read the numbers of the kept pieces, so do the first `t + 1`. */
  lemma ReadRoundKeeps(pieces: seq<string>, t: nat, weighted: bool, read: string -> Option<int>)
    requires t < |pieces|
    requires ReadNeighbours(pieces, t, weighted, read) == ParseAll(KeptFields(pieces[..t], weighted), read)
    ensures ReadNeighbours(pieces, t + 1, weighted, read) == ParseAll(KeptFields(pieces[..t + 1], weighted), read)
  {
    CountNonEmptyIsLength(pieces, t);
    ParseKeptStep(pieces, t, weighted, read);
  }

  /** Round by round, the loop reads the numbers of exactly the kept pieces. */
  lemma ReadNeighboursIsParseKept(pieces: seq<string>, n: nat, weighted: bool, read: string -> Option<int>)
    requires n <= |pieces|
    ensures ReadNeighbours(pieces, n, weighted, read) == ParseAll(KeptFields(pieces[..n], weighted), read)
  {
    assert pieces[..0] == [];
    for t := 0 to n
      invariant ReadNeighbours(pieces, t, weighted, read) == ParseAll(KeptFields(pieces[..t], weighted), read)
    {
      ReadRoundKeeps(pieces, t, weighted, read);
    }
  }

  /** All the pieces: the neighbours are the numbers of the kept pieces. */
  lemma ReadAllIsParseKept(pieces: seq<string>, weighted: bool, read: string -> Option<int>)
    ensures ReadNeighbours(pieces, |pieces|, weighted, read) == ParseAll(KeptFields(pieces, weighted), read)
  {
    ReadNeighboursIsParseKept(pieces, |pieces|, weighted, read);
    assert pieces[..|pieces|] == pieces;
  }

  /** A piece that is not a number makes every later round fail too. */
  lemma {:induction false} ReadFailsOnward(pieces: seq<string>, n: nat, m: nat, weighted: bool, read: string -> Option<int>)
    requires n <= m <= |pieces| && ReadNeighbours(pieces, n, weighted, read).None?
    ensures ReadNeighbours(pieces, m, weighted, read).None?
    decreases m - n
  {
    if n < m {
      ReadFailsOnward(pieces, n, m - 1, weighted, read);
    }
  }

  // ---------------------------------------------------------------------
  // The line.
  // ---------------------------------------------------------------------

  /** The vertex id and the neighbours a line describes, or `None` where `convertStringToNode` throws. */
  function ParseLine(line: string, weighted: bool): Option<(int, seq<int>)>
  {
    var lineInfos := JavaSplit(line, '=');
    if |lineInfos| == 0 then None
    else
      match ParseInt(Trim(lineInfos[0]))
      case None => None
      case Some(id) =>
        var pieces := if |lineInfos| > 1 then JavaSplit(lineInfos[1], ' ') else [];
        match ReadNeighbours(pieces, |pieces|, weighted, PieceNumber)
        case None => None
        case Some(ns) => Some((id, ns))
  }

  /**
   * `convertStringToNode(line)` with `weightedGraph == weighted`: the id
   * before `=`, then a loop over the pieces after it in which empty pieces
   * are skipped, the others are counted in `cntNumbers`, and every piece that
   * is not a weight is read as a number and appended to the neighbours.
   */
  method ConvertStringToNode(line: string, weighted: bool) returns (r: Option<Node>)
    ensures r.None? <==> ParseLine(line, weighted).None?
    ensures r.Some? ==> fresh(r.value)
    ensures r.Some? ==> (r.value.nodeId, r.value.neighbors) == ParseLine(line, weighted).value
  {
    var lineInfos := JavaSplit(line, '=');
    if |lineInfos| == 0 {
      return None;
    }
    var id := ParseInt(Trim(lineInfos[0]));
    if id.None? {
      return None;
    }
    var node := new Node(id.value);
    var strNeighbors: seq<string> := [];
    if |lineInfos| > 1 {
      strNeighbors := JavaSplit(lineInfos[1], ' ');
    }
    var cntNumbers := 0;
    for t := 0 to |strNeighbors|
      invariant cntNumbers == CountNonEmpty(strNeighbors, t)
      invariant ReadNeighbours(strNeighbors, t, weighted, PieceNumber) == Some(node.neighbors)
    {
      var number := strNeighbors[t];
      ReadRound(strNeighbors, t, weighted, PieceNumber);
      if number == [] {
        continue;
      }
      cntNumbers := cntNumbers + 1;
      if weighted && cntNumbers % 2 == 0 {
        continue;
      }
      var v := ParseInt(Trim(number));
      if v.None? {
        ReadFailsOnward(strNeighbors, t + 1, |strNeighbors|, weighted, PieceNumber);
        return None;
      }
      node.AddNeighbor(v.value);
    }
    return Some(node);
  }

  // ---------------------------------------------------------------------
  // Round trips: lines written the way the graph file lists a vertex.
  // ---------------------------------------------------------------------

  /** Each number written with `Integer.toString`. */
  function ShowAll(ns: seq<int>): (r: seq<string>)
    ensures |r| == |ns|
  {
    seq(|ns|, k requires 0 <= k < |ns| => ShowInt(ns[k]))
  }

  predicate InIntRange(ns: seq<int>)
  {
    forall k :: 0 <= k < |ns| ==> MinInt <= ns[k] <= MaxInt
  }

  /** Reading back numbers written with `Integer.toString` gives the numbers. */
  lemma ParseShowAll(ns: seq<int>)
    requires InIntRange(ns)
    ensures ParseAll(ShowAll(ns), PieceNumber) == Some(ns)
  {
    var shown := ShowAll(ns);
    forall k | 0 <= k < |shown| ensures PieceNumber(shown[k]) == Some(ns[k]) {
      ParseShowInt(ns[k]);
    }
    assert AllNumbers(shown, PieceNumber);
    ParseAllIffNumbers(shown, PieceNumber);
    ParseAllEntries(shown, PieceNumber);
    var r := ParseAll(shown, PieceNumber).value;
    forall k | 0 <= k < |ns| ensures r[k] == ns[k] {
      assert PieceNumber(shown[k]) == Some(r[k]);
    }
    assert r == ns;
  }

  /** No piece is empty, so none is dropped. */
  lemma {:induction false} NonEmptyAll(pieces: seq<string>)
    requires forall k :: 0 <= k < |pieces| ==> pieces[k] != []
    ensures NonEmpty(pieces) == pieces
  {
    if pieces != [] {
      var init := pieces[..|pieces| - 1];
      NonEmptyAll(init);
      assert init + [pieces[|pieces| - 1]] == pieces;
    }
  }

  /** A character in none of the pieces and other than the separator is not in their join. */
  lemma {:induction false} JoinAvoids(pieces: seq<string>, sep: char, c: char)
    requires c != sep && forall p :: p in pieces ==> c !in p
    ensures c !in Join(pieces, sep)
    decreases |pieces|
  {
    if |pieces| > 1 {
      assert pieces[0] in pieces;
      assert forall p :: p in pieces[1..] ==> p in pieces;
      JoinAvoids(pieces[1..], sep, c);
    } else if |pieces| == 1 {
      assert pieces[0] in pieces;
    }
  }

  lemma JoinLength(pieces: seq<string>, sep: char)
    requires |pieces| > 0
    ensures |Join(pieces, sep)| >= |pieces[0]|
  {
  }

  /** `head=tail` split at `=`, when neither side holds `=` and the tail is not empty. */
  lemma SplitAtEquals(head: string, tail: string)
    requires head != [] && '=' !in head && tail != [] && '=' !in tail
    ensures JavaSplit(head + "=" + tail, '=') == [head, tail]
  {
    var line := head + "=" + tail;
    assert line == head + ['='] + tail;
    SplitOnPiece(head, '=', tail);
    SplitOnWhole(tail, '=');
    assert SplitOn(line, '=') == [head, tail];
    assert line[|head|] == '=';
    assert DropTrailingEmpty([head, tail]) == [head, tail];
  }

  /** The text after `=`: non-empty, free of `=`, and split at spaces into the pieces. */
  lemma NeighbourText(pieces: seq<string>)
    requires |pieces| > 0 && forall p :: p in pieces ==> '=' !in p && ' ' !in p && p != []
    ensures Join(pieces, ' ') != [] && '=' !in Join(pieces, ' ')
    ensures JavaSplit(Join(pieces, ' '), ' ') == pieces
  {
    JoinAvoids(pieces, ' ', '=');
    assert pieces[0] in pieces;
    JoinLength(pieces, ' ');
    JavaSplitJoin(pieces, ' ');
  }

  /** The line `Integer.toString(id) + "=" + ...` listing the neighbours separated by spaces. */
  function FormatLine(id: int, ns: seq<int>): string
  {
    ShowInt(id) + "=" + Join(ShowAll(ns), ' ')
  }

  /** Every pieces of `ShowAll(ns)` is non-empty and free of spaces and `=`. */
  lemma ShowAllPieces(ns: seq<int>)
    ensures forall p :: p in ShowAll(ns) ==> '=' !in p && ' ' !in p && p != []
  {
  }

  /** `id=` with nothing after it splits into the id text alone. */
  lemma SplitBareId(head: string)
    requires head != [] && '=' !in head
    ensures JavaSplit(head + "=" + Join([], ' '), '=') == [head]
  {
    var line := head + "=" + Join([], ' ');
    assert line == head + "=" + [];
    SplitOnPiece(head, '=', []);
    assert SplitOn(line, '=') == [head, []];
    assert [head, []][..1] == [head];
    assert line[|head|] == '=';
    assert DropTrailingEmpty([head]) == [head];
    assert DropTrailingEmpty([head, []]) == [head];
  }

  /** Reading a line written by `FormatLine` gives back the id and the neighbours. */
  lemma ParseFormattedLine(id: int, ns: seq<int>)
    requires MinInt <= id <= MaxInt && InIntRange(ns)
    ensures ParseLine(FormatLine(id, ns), false) == Some((id, ns))
  {
    ParseShowInt(id);
    ParseShowAll(ns);
    var shown := ShowAll(ns);
    if ns == [] {
      SplitBareId(ShowInt(id));
    } else {
      ShowAllPieces(ns);
      NeighbourText(shown);
      SplitAtEquals(ShowInt(id), Join(shown, ' '));
      NonEmptyAll(shown);
      ReadAllIsParseKept(shown, false, PieceNumber);
    }
  }

  /** Neighbour `k` followed by its weight `ws[k]`, for every `k`. */
  function Interleave(ns: seq<int>, ws: seq<string>): (r: seq<string>)
    requires |ws| == |ns|
    ensures |r| == 2 * |ns|
  {
    seq(2 * |ns|, k requires 0 <= k < 2 * |ns| => if k % 2 == 0 then ShowInt(ns[k / 2]) else ws[k / 2])
  }

  /** A weight is any text the line can carry: non-empty, without spaces or `=`. */
  predicate WeightTexts(ws: seq<string>)
  {
    forall w :: w in ws ==> w != [] && ' ' !in w && '=' !in w
  }

  /** Every piece of the interleaving is non-empty and free of spaces and `=`. */
  lemma InterleavePieces(ns: seq<int>, ws: seq<string>)
    requires |ws| == |ns| && WeightTexts(ws)
    ensures forall p :: p in Interleave(ns, ws) ==> '=' !in p && ' ' !in p && p != []
  {
    var pieces := Interleave(ns, ws);
    forall p | p in pieces ensures '=' !in p && ' ' !in p && p != [] {
      var k :| 0 <= k < |pieces| && pieces[k] == p;
      if k % 2 == 1 {
        assert ws[k / 2] in ws;
      }
    }
  }

  /** The line of a weighted graph: each neighbour followed by its weight. */
  function FormatWeightedLine(id: int, ns: seq<int>, ws: seq<string>): string
    requires |ws| == |ns|
  {
    ShowInt(id) + "=" + Join(Interleave(ns, ws), ' ')
  }

  /** Taking the first, third, fifth, ... piece of the interleaving gives the neighbours. */
  lemma EvenEntriesInterleave(ns: seq<int>, ws: seq<string>)
    requires |ws| == |ns|
    ensures EvenEntries(Interleave(ns, ws)) == ShowAll(ns)
  {
    EvenEntriesAt(Interleave(ns, ws));
  }

  /**
   * Reading a weighted line gives back the id and the neighbours; the
   * weights are skipped without being read, so any text serves as one.
   */
  lemma ParseWeightedLine(id: int, ns: seq<int>, ws: seq<string>)
    requires MinInt <= id <= MaxInt && InIntRange(ns)
    requires |ws| == |ns| && WeightTexts(ws)
    ensures ParseLine(FormatWeightedLine(id, ns, ws), true) == Some((id, ns))
  {
    ParseShowInt(id);
    ParseShowAll(ns);
    var pieces := Interleave(ns, ws);
    if ns == [] {
      SplitBareId(ShowInt(id));
    } else {
      InterleavePieces(ns, ws);
      NeighbourText(pieces);
      SplitAtEquals(ShowInt(id), Join(pieces, ' '));
      NonEmptyAll(pieces);
      EvenEntriesInterleave(ns, ws);
      ReadAllIsParseKept(pieces, true, PieceNumber);
    }
  }
}
