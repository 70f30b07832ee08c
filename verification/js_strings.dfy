/**
 * The three JavaScript built-ins the editor's line-to-graph conversion relies
 * on, as functions over `string` (a `seq<char>`):
 *   - `String.prototype.split` with a one-character separator,
 *   - `String.prototype.trim`,
 *   - the decimal rendering of an array index in a template literal.
 * Each comes with its partner: `Join` for `Split`, the whitespace boundaries
 * and idempotence for `Trim`, `DecimalValue` for `Decimal`.
 */
module JsStrings {

  // ---------------------------------------------------------------------------
  // split
  // ---------------------------------------------------------------------------

  /**
   * `s.split(sep)` for a one-character separator: the pieces of `s` between
   * separators, empty pieces kept, so `""` splits into `[""]` and a trailing
   * separator yields a trailing empty piece.
   */
  function Split(s: string, sep: char): (r: seq<string>)
    ensures |r| == multiset(s)[sep] + 1
    ensures forall k :: 0 <= k < |r| ==> sep !in r[k]
  {
    if s == [] then [""]
    else
      assert s == [s[0]] + s[1..];
      var rest := Split(s[1..], sep);
      if s[0] == sep then [""] + rest
      else [[s[0]] + rest[0]] + rest[1..]
  }

  /** `pieces.join(sep)`: the pieces with one separator between neighbours. */
  function Join(pieces: seq<string>, sep: char): string
    requires |pieces| >= 1
  {
    if |pieces| == 1 then pieces[0]
    else pieces[0] + [sep] + Join(pieces[1..], sep)
  }

  /** Prepending a character to the first piece prepends it to the joined text. */
  lemma {:induction false} JoinConsFirst(c: char, pieces: seq<string>, sep: char)
    requires |pieces| >= 1
    ensures Join([[c] + pieces[0]] + pieces[1..], sep) == [c] + Join(pieces, sep)
  {
    var moved := [[c] + pieces[0]] + pieces[1..];
    if |pieces| > 1 {
      assert moved[1..] == pieces[1..];
    }
  }

  /** Splitting and joining again gives back the text: no character is lost. */
  lemma {:induction false} JoinSplit(s: string, sep: char)
    ensures Join(Split(s, sep), sep) == s
  {
    if s != [] {
      var rest := Split(s[1..], sep);
      JoinSplit(s[1..], sep);
      if s[0] == sep {
        assert ([""] + rest)[1..] == rest;
      } else {
        JoinConsFirst(s[0], rest, sep);
      }
    }
  }

  /** A piece free of separators, followed by a separator, splits off as one piece. */
  lemma {:induction false} SplitAfterPiece(piece: string, sep: char, tail: string)
    requires sep !in piece
    ensures Split(piece + [sep] + tail, sep) == [piece] + Split(tail, sep)
  {
    var s := piece + [sep] + tail;
    if piece == [] {
      assert s[1..] == tail;
    } else {
      assert s[1..] == piece[1..] + [sep] + tail;
      SplitAfterPiece(piece[1..], sep, tail);
      assert [piece[0]] + piece[1..] == piece;
    }
  }

  /** A text without separators splits into itself alone. */
  lemma {:induction false} SplitWithoutSeparator(s: string, sep: char)
    requires sep !in s
    ensures Split(s, sep) == [s]
  {
    if s != [] {
      SplitWithoutSeparator(s[1..], sep);
      assert [s[0]] + s[1..] == s;
    }
  }

  /**
   * Split is the only decomposition that Join inverts: any non-empty list of
   * separator-free pieces is recovered by splitting its join.
   */
  lemma {:induction false} SplitJoin(pieces: seq<string>, sep: char)
    requires |pieces| >= 1
    requires forall k :: 0 <= k < |pieces| ==> sep !in pieces[k]
    ensures Split(Join(pieces, sep), sep) == pieces
  {
    if |pieces| == 1 {
      SplitWithoutSeparator(pieces[0], sep);
    } else {
      SplitJoin(pieces[1..], sep);
      SplitAfterPiece(pieces[0], sep, Join(pieces[1..], sep));
      assert [pieces[0]] + pieces[1..] == pieces;
    }
  }

  // ---------------------------------------------------------------------------
  // trim
  // ---------------------------------------------------------------------------

  /**
   * The characters `trim` removes: the ECMAScript WhiteSpace production (tab,
   * vertical tab, form feed, space, no-break space, byte order mark and every
   * Unicode "Zs" space separator) and the LineTerminator production (line
   * feed, carriage return, line and paragraph separators).
   */
  predicate IsWhitespace(c: char) {
    || c == '\t' || c == '\n' || c == '\U{000B}' || c == '\U{000C}' || c == '\r'
    || c == ' ' || c == '\U{00A0}' || c == '\U{1680}'
    || ('\U{2000}' <= c <= '\U{200A}')
    || c == '\U{2028}' || c == '\U{2029}' || c == '\U{202F}' || c == '\U{205F}'
    || c == '\U{3000}' || c == '\U{FEFF}'
  }

  predicate AllWhitespace(s: string) {
    forall k :: 0 <= k < |s| ==> IsWhitespace(s[k])
  }

  /** Every character of `s` at a position in `lo..hi` is whitespace. */
  predicate WhitespaceIn(s: string, lo: int, hi: int) {
    forall k :: lo <= k < hi && 0 <= k < |s| ==> IsWhitespace(s[k])
  }

  /** The text without its leading whitespace: a suffix of `s`. */
  function TrimStart(s: string): (r: string)
    ensures |r| <= |s| && r == s[|s| - |r|..]
    ensures r == [] || !IsWhitespace(r[0])
    ensures WhitespaceIn(s, 0, |s| - |r|)
  {
    if s != [] && IsWhitespace(s[0]) then TrimStart(s[1..]) else s
  }

  /** The text without its trailing whitespace: a prefix of `s`. */
  function TrimEnd(s: string): (r: string)
    ensures |r| <= |s| && r == s[..|r|]
    ensures r == [] || !IsWhitespace(r[|r| - 1])
    ensures WhitespaceIn(s, |r|, |s|)
  {
    if s != [] && IsWhitespace(s[|s| - 1]) then TrimEnd(s[..|s| - 1]) else s
  }

  /**
   * `s.trim()`: the text without whitespace at either end. The result
   * neither starts nor ends with whitespace (see TrimIsSlice for what it is
   * a part of).
   */
  function Trim(s: string): (r: string)
    ensures r == [] || (!IsWhitespace(r[0]) && !IsWhitespace(r[|r| - 1]))
  {
    if s != [] && IsWhitespace(s[0]) then Trim(s[1..]) else TrimEnd(s)
  }

  /** Trimming both ends is trimming the start, then the end. */
  lemma {:induction false} TrimBothEnds(s: string)
    ensures Trim(s) == TrimEnd(TrimStart(s))
  {
    if s != [] && IsWhitespace(s[0]) {
      TrimBothEnds(s[1..]);
    }
  }

  /**
   * The trimmed text is a slice `s[i..i + n]` of the text, and only
   * whitespace lies outside that slice: nothing but whitespace is removed,
   * and all of it at the ends is.
   */
  lemma TrimIsSlice(s: string) returns (i: nat, n: nat)
    ensures i + n <= |s| && Trim(s) == s[i..i + n]
    ensures WhitespaceIn(s, 0, i) && WhitespaceIn(s, i + n, |s|)
  {
    TrimBothEnds(s);
    var r := TrimEnd(TrimStart(s));
    i := StartThenEndIsSlice(s, TrimStart(s), r);
    n := |r|;
  }

  lemma StartThenEndIsSlice(s: string, t: string, r: string) returns (i: nat)
    requires t == TrimStart(s) && r == TrimEnd(t)
    ensures i + |r| <= |s| && r == s[i..i + |r|]
    ensures WhitespaceIn(s, 0, i) && WhitespaceIn(s, i + |r|, |s|)
  {
    i := |s| - |t|;
    assert t == s[i..] && r == t[..|r|];
    forall k | i + |r| <= k < |s| ensures IsWhitespace(s[k]) {
      assert s[k] == t[k - i];
    }
  }

  /** Trimming a trimmed text changes nothing. */
  lemma TrimIdempotent(s: string)
    ensures Trim(Trim(s)) == Trim(s)
  {
    TrimKeepsUnpadded(Trim(s));
  }

  /** A text that neither starts nor ends with whitespace is its own trimmed form. */
  lemma TrimKeepsUnpadded(s: string)
    requires s == [] || (!IsWhitespace(s[0]) && !IsWhitespace(s[|s| - 1]))
    ensures Trim(s) == s
  {
    assert TrimEnd(s) == s;
  }

  /** Leading whitespace is skipped entirely by TrimStart. */
  lemma {:induction false} TrimStartSkips(pad: string, s: string)
    requires AllWhitespace(pad)
    ensures TrimStart(pad + s) == TrimStart(s)
  {
    if pad == [] {
      assert pad + s == s;
    } else {
      assert (pad + s)[0] == pad[0];
      assert (pad + s)[1..] == pad[1..] + s;
      assert AllWhitespace(pad[1..]) by {
        forall k | 0 <= k < |pad| - 1 ensures IsWhitespace(pad[1..][k]) {
          assert pad[1..][k] == pad[k + 1];
        }
      }
      TrimStartSkips(pad[1..], s);
    }
  }

  /** Trailing whitespace is skipped entirely by TrimEnd. */
  lemma {:induction false} TrimEndSkips(s: string, pad: string)
    requires AllWhitespace(pad)
    ensures TrimEnd(s + pad) == TrimEnd(s)
  {
    if pad == [] {
      assert s + pad == s;
    } else {
      var shorter := pad[..|pad| - 1];
      assert (s + pad)[|s + pad| - 1] == pad[|pad| - 1];
      assert (s + pad)[..|s + pad| - 1] == s + shorter;
      assert AllWhitespace(shorter) by {
        forall k | 0 <= k < |shorter| ensures IsWhitespace(shorter[k]) {
          assert shorter[k] == pad[k];
        }
      }
      TrimEndSkips(s, shorter);
    }
  }

  /** A text made only of whitespace trims to nothing. */
  lemma AllWhitespaceTrimsAway(s: string)
    requires AllWhitespace(s)
    ensures TrimStart(s) == [] && Trim(s) == []
  {
    TrimBothEnds(s);
  }

  /** Text after a non-whitespace character survives TrimStart unchanged. */
  lemma {:induction false} TrimStartKeepsTail(s: string, tail: string)
    requires !AllWhitespace(s)
    ensures TrimStart(s + tail) == TrimStart(s) + tail
  {
    if IsWhitespace(s[0]) {
      assert (s + tail)[1..] == s[1..] + tail;
      assert !AllWhitespace(s[1..]) by {
        var k :| 0 <= k < |s| && !IsWhitespace(s[k]);
        assert s[1..][k - 1] == s[k];
      }
      TrimStartKeepsTail(s[1..], tail);
    }
  }

  /**
   * Whitespace around a text does not change its trimmed form; in particular
   * a line that ends in "\r" (a CRLF line) trims to the same label as the
   * line without it.
   */
  lemma {:induction false} TrimIgnoresPadding(before: string, s: string, after: string)
    requires AllWhitespace(before) && AllWhitespace(after)
    ensures Trim(before + s + after) == Trim(s)
  {
    var padded := before + (s + after);
    assert before + s + after == padded;
    TrimBothEnds(padded);
    TrimBothEnds(s);
    TrimStartSkips(before, s + after);
    if AllWhitespace(s) {
      assert AllWhitespace(s + after) by {
        forall k | 0 <= k < |s + after| ensures IsWhitespace((s + after)[k]) {
          if k < |s| { assert (s + after)[k] == s[k]; } else { assert (s + after)[k] == after[k - |s|]; }
        }
      }
      AllWhitespaceTrimsAway(s + after);
      AllWhitespaceTrimsAway(s);
      assert TrimEnd([]) == [];
    } else {
      TrimStartKeepsTail(s, after);
      TrimEndSkips(TrimStart(s), after);
    }
  }

  // ---------------------------------------------------------------------------
  // decimal rendering of an array index (`${index}`)
  // ---------------------------------------------------------------------------

  function DigitChar(d: nat): (c: char)
    requires d < 10
    ensures '0' <= c <= '9'
  {
    ('0' as int + d) as char
  }

  function DigitValue(c: char): nat {
    if '0' <= c <= '9' then c as int - '0' as int else 0
  }

  /**
   * The decimal digits of `n` as JavaScript prints an array index (below
   * 2^32, so never in exponent form): at least one digit, and a leading zero
   * only for zero itself.
   */
  function Decimal(n: nat): (r: string)
    ensures |r| >= 1
    ensures forall k :: 0 <= k < |r| ==> '0' <= r[k] <= '9'
    ensures r[0] == '0' <==> n == 0
  {
    if n < 10 then [DigitChar(n)] else Decimal(n / 10) + [DigitChar(n % 10)]
  }

  /** The value of a string of decimal digits, most significant first. */
  function DecimalValue(s: string): nat {
    if s == [] then 0 else DecimalValue(s[..|s| - 1]) * 10 + DigitValue(s[|s| - 1])
  }

  /** Reading back the printed digits gives the number. */
  lemma {:induction false} DecimalRoundTrip(n: nat)
    ensures DecimalValue(Decimal(n)) == n
  {
    var r := Decimal(n);
    if n < 10 {
      assert r[..0] == [];
    } else {
      DecimalRoundTrip(n / 10);
      assert r[..|r| - 1] == Decimal(n / 10);
    }
  }

  /** Distinct numbers print differently. */
  lemma DecimalInjective(a: nat, b: nat)
    ensures Decimal(a) == Decimal(b) <==> a == b
  {
    if Decimal(a) == Decimal(b) {
      DecimalRoundTrip(a);
      DecimalRoundTrip(b);
    }
  }
}
