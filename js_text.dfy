/** The JavaScript string built-ins the core relies on (`trim`, `split` on one
    character, `indexOf`, `includes`, `endsWith`, `toLowerCase`, `String(n)`),
    over Dafny strings. */
module JsText {

  /** White space and line terminators as ECMAScript defines them: the characters
      that `trim`, `parseInt` and `Number` skip. */
  predicate IsJsSpace(c: char) {
    || c == '\t' || c == '\n' || c == '\U{B}' || c == '\U{C}' || c == '\r' || c == ' '
    || c == '\U{A0}' || c == '\U{1680}' || ('\U{2000}' <= c <= '\U{200A}')
    || c == '\U{2028}' || c == '\U{2029}' || c == '\U{202F}' || c == '\U{205F}'
    || c == '\U{3000}' || c == '\U{FEFF}'
  }

  /** `s.trimStart()`: the suffix left after dropping leading white space. */
  function TrimStart(s: string): (r: string)
    ensures |r| <= |s| && r == s[|s| - |r|..]
    ensures r == [] || !IsJsSpace(r[0])
    ensures forall i :: 0 <= i < |s| - |r| ==> IsJsSpace(s[i])
  {
    if s != [] && IsJsSpace(s[0]) then TrimStart(s[1..]) else s
  }

  /** `s.trimEnd()`: the prefix left after dropping trailing white space. */
  function TrimEnd(s: string): (r: string)
    ensures |r| <= |s| && r == s[..|r|]
    ensures r == [] || !IsJsSpace(r[|r| - 1])
    ensures forall i :: |r| <= i < |s| ==> IsJsSpace(s[i])
  {
    if s != [] && IsJsSpace(s[|s| - 1]) then TrimEnd(s[..|s| - 1]) else s
  }

  /** `r` is the slice of `s` starting at `i`, with only white space before
      and after it. */
  predicate BlankAround(s: string, i: int, r: string) {
    0 <= i <= |s| - |r| && r == s[i..i + |r|]
    && (forall k :: 0 <= k < i ==> IsJsSpace(s[k]))
    && (forall k :: i + |r| <= k < |s| ==> IsJsSpace(s[k]))
  }

  /** `s.trim()`: empty exactly when `s` is blank, otherwise it starts and ends
      with a character that is not white space. */
  function Trim(s: string): (r: string)
    ensures |r| <= |s|
    ensures r == [] <==> forall i :: 0 <= i < |s| ==> IsJsSpace(s[i])
    ensures r == [] || (!IsJsSpace(r[0]) && !IsJsSpace(r[|r| - 1]))
  {
    TrimEnd(TrimStart(s))
  }

  /** What `trim` leaves is a slice of its input with only white space cut
      off before and after it. */
  lemma TrimCutsBlankEnds(s: string)
    ensures exists i :: BlankAround(s, i, Trim(s))
  {
    var t := TrimStart(s);
    var r := TrimEnd(t);
    assert BlankAround(s, |s| - |t|, t);
    assert BlankAround(t, 0, r);
    BlankAroundTwice(s, |s| - |t|, t, 0, r);
    assert Trim(s) == r;
  }

  /** Cutting blank ends off what was left by cutting blank ends cuts blank
      ends off the original. */
  lemma BlankAroundTwice(s: string, i: int, t: string, j: int, r: string)
    requires BlankAround(s, i, t) && BlankAround(t, j, r)
    ensures BlankAround(s, i + j, r)
  {
    assert r == s[i + j..i + j + |r|] by {
      forall m | 0 <= m < |r| ensures r[m] == s[i + j + m] {
        assert r[m] == t[j + m] == s[i + j + m];
      }
    }
    forall k | i <= k < i + j ensures IsJsSpace(s[k]) {
      assert s[k] == t[k - i];
    }
    forall k | i + j + |r| <= k < i + |t| ensures IsJsSpace(s[k]) {
      assert s[k] == t[k - i];
    }
  }

  /** A string of no white space is its own trim. */
  lemma TrimOfNoSpace(s: string)
    requires forall i :: 0 <= i < |s| ==> !IsJsSpace(s[i])
    ensures TrimStart(s) == s && Trim(s) == s
  {
  }

  /** Text starting with a character that is not white space trims to
      itself at the start. */
  lemma TrimStartOfNonSpace(s: string)
    requires s != [] && !IsJsSpace(s[0])
    ensures TrimStart(s) == s
  {
  }

  /** `s.split(sep)` for a one-character separator: the pieces between the
      separators, in order; there is always at least one (`"".split(",")` is
      `[""]`), and more than one exactly when the separator occurs. */
  function Split(s: string, sep: char): (parts: seq<string>)
    ensures |parts| >= 1
    decreases |s|
  {
    if s == [] then [""]
    else
      var rest := Split(s[1..], sep);
      assert s == [s[0]] + s[1..];
      if s[0] == sep then [""] + rest else [[s[0]] + rest[0]] + rest[1..]
  }

  /** There is more than one piece exactly when the separator occurs. */
  lemma {:induction false} SplitCount(s: string, sep: char)
    ensures sep in s <==> |Split(s, sep)| >= 2
    decreases |s|
  {
    if s != [] {
      SplitCount(s[1..], sep);
      assert s == [s[0]] + s[1..];
    }
  }

  /** No piece of a split contains the separator. */
  lemma {:induction false} SplitPiecesFree(s: string, sep: char)
    ensures forall p :: p in Split(s, sep) ==> sep !in p
    decreases |s|
  {
    if s != [] {
      SplitPiecesFree(s[1..], sep);
      var rest := Split(s[1..], sep);
      if s[0] != sep {
        assert sep !in rest[0];
        assert sep !in [s[0]] + rest[0];
      }
    }
  }

  /** `parts.join(sep)`: the partner of `Split`. */
  function Join(parts: seq<string>, sep: char): string
    decreases |parts|
  {
    if parts == [] then ""
    else if |parts| == 1 then parts[0]
    else parts[0] + [sep] + Join(parts[1..], sep)
  }

  /** Splitting loses nothing: joining the pieces back with the separator gives
      the original string. */
  lemma {:induction false} SplitJoin(s: string, sep: char)
    ensures Join(Split(s, sep), sep) == s
    decreases |s|
  {
    if s != [] {
      SplitJoin(s[1..], sep);
      SplitJoinStep(s, sep);
    }
  }

  /** The inductive step of `SplitJoin`: the first character is put back in
      front of the text the remaining pieces join to. */
  lemma SplitJoinStep(s: string, sep: char)
    requires s != [] && Join(Split(s[1..], sep), sep) == s[1..]
    ensures Join(Split(s, sep), sep) == s
  {
    SplitStep(s, sep);
    var rest := Split(s[1..], sep);
    if s[0] == sep {
      JoinCons("", rest, sep);
      assert [sep] + s[1..] == s;
    } else if |rest| == 1 {
      JoinOnePiece([s[0]] + rest[0], sep);
      assert [s[0]] + s[1..] == s;
    } else {
      JoinExtendFirst(s[0], rest, sep);
      assert [s[0]] + s[1..] == s;
    }
  }

  lemma JoinOnePiece(p: string, sep: char)
    ensures Join([p], sep) == p
  {
  }

  /** Prefixing a character to the first piece prefixes it to the joined
      text. */
  lemma JoinExtendFirst(c: char, ps: seq<string>, sep: char)
    requires |ps| >= 2
    ensures Join([[c] + ps[0]] + ps[1..], sep) == [c] + Join(ps, sep)
  {
    JoinCons([c] + ps[0], ps[1..], sep);
    JoinCons(ps[0], ps[1..], sep);
    assert ps == [ps[0]] + ps[1..];
  }

  /** Joining a piece in front of a non-empty list puts a separator between. */
  lemma JoinCons(p: string, ps: seq<string>, sep: char)
    requires ps != []
    ensures Join([p] + ps, sep) == p + [sep] + Join(ps, sep)
  {
    assert ([p] + ps)[1..] == ps;
  }

  /** `s.indexOf(c)` for a character that occurs in `s`: its first position. */
  function IndexOf(s: string, c: char): (i: nat)
    requires c in s
    ensures i < |s| && s[i] == c && c !in s[..i]
    decreases |s|
  {
    if s[0] == c then 0
    else
      assert s == [s[0]] + s[1..];
      var j := IndexOf(s[1..], c);
      assert s[..j + 1] == [s[0]] + s[1..][..j];
      1 + j
  }

  /** The first piece of a split is the text before the first separator, and the
      remaining pieces are the split of the text after it. */
  lemma {:induction false} SplitFirst(s: string, sep: char)
    ensures sep !in s ==> Split(s, sep) == [s]
    ensures sep in s ==>
      Split(s, sep) == [s[..IndexOf(s, sep)]] + Split(s[IndexOf(s, sep) + 1..], sep)
    decreases |s|
  {
    if s != [] {
      SplitFirst(s[1..], sep);
      SplitStep(s, sep);
      var rest := Split(s[1..], sep);
      if s[0] == sep {
        assert IndexOf(s, sep) == 0 && s[1..] == s[0 + 1..];
      } else if sep in s[1..] {
        var i := IndexOf(s[1..], sep);
        assert IndexOf(s, sep) == i + 1;
        assert s[..i + 1] == [s[0]] + s[1..][..i];
        assert s[i + 2..] == s[1..][i + 1..];
      } else {
        assert sep !in s by {
          forall k | 0 <= k < |s| ensures s[k] != sep {
            if k > 0 { assert s[k] == s[1..][k - 1]; }
          }
        }
        assert [s[0]] + s[1..] == s;
      }
    }
  }

  /** Text free of the separator, then the separator: the text is the first
      piece, and the pieces of what follows come after it. */
  lemma {:induction false} SplitAfterFirst(p: string, sep: char, q: string)
    requires sep !in p
    ensures Split(p + [sep] + q, sep) == [p] + Split(q, sep)
    decreases |p|
  {
    var s := p + [sep] + q;
    if p == [] {
      assert s == [sep] + q;
      assert s[1..] == q;
    } else {
      assert s[1..] == p[1..] + [sep] + q;
      SplitAfterFirst(p[1..], sep, q);
      assert [p[0]] + p[1..] == p;
    }
  }

  /** One step of `Split`: the first character either ends the first piece
      or joins it. */
  lemma SplitStep(s: string, sep: char)
    requires s != []
    ensures var rest := Split(s[1..], sep);
      Split(s, sep) == if s[0] == sep then [""] + rest else [[s[0]] + rest[0]] + rest[1..]
  {
  }

  /** The last piece of a list of pieces. */
  function LastPiece(parts: seq<string>): string
    requires parts != []
  {
    parts[|parts| - 1]
  }

  /** One step of the last piece: the first character matters only when no
      separator follows it. */
  lemma SplitLastStep(s: string, sep: char)
    requires s != []
    ensures LastPiece(Split(s, sep)) ==
      if s[0] == sep || sep in s[1..] then LastPiece(Split(s[1..], sep)) else s
  {
    var rest := Split(s[1..], sep);
    var parts := Split(s, sep);
    SplitStep(s, sep);
    if s[0] == sep {
      assert parts == [""] + rest;
      assert parts[|parts| - 1] == rest[|rest| - 1];
    } else if sep in s[1..] {
      assert |rest| >= 2;
      assert parts == [[s[0]] + rest[0]] + rest[1..];
      assert parts[|parts| - 1] == rest[|rest| - 1];
    } else {
      SplitFirst(s[1..], sep);
      assert rest == [s[1..]];
      assert [s[0]] + s[1..] == s;
      assert parts == [s];
    }
  }

  /** The last piece of a split (`s.split(sep).pop()`) is the longest suffix of
      `s` free of the separator: the whole of `s` when the separator does not
      occur, otherwise the text after its last occurrence. */
  lemma {:induction false} SplitLast(s: string, sep: char)
    ensures var p := LastPiece(Split(s, sep));
      |p| <= |s| && p == s[|s| - |p|..] && sep !in p
      && (|p| < |s| ==> s[|s| - |p| - 1] == sep)
    decreases |s|
  {
    if s != [] {
      var t := s[1..];
      SplitLast(t, sep);
      SplitLastStep(s, sep);
      var q := LastPiece(Split(t, sep));
      var p := LastPiece(Split(s, sep));
      if s[0] == sep || sep in t {
        assert p == q;
        assert t[|t| - |q|..] == s[|s| - |q|..];
        if s[0] != sep {
          assert |q| < |t|;
        }
        if |q| < |t| {
          assert s[|s| - |q| - 1] == t[|t| - |q| - 1];
        }
      } else {
        assert p == s;
        assert sep !in s by {
          forall i | 0 <= i < |s| ensures s[i] != sep {
            if i > 0 { assert s[i] == t[i - 1]; }
          }
        }
      }
    }
  }

  /** `s.startsWith(prefix)` */
  predicate StartsWith(s: string, prefix: string) {
    |prefix| <= |s| && s[..|prefix|] == prefix
  }

  /** `s.endsWith(suffix)` */
  predicate EndsWith(s: string, suffix: string) {
    |suffix| <= |s| && s[|s| - |suffix|..] == suffix
  }

  /** `s.includes(sub)` (also `s.indexOf(sub) >= 0`). */
  predicate Includes(s: string, sub: string)
    decreases |s|
  {
    StartsWith(s, sub) || (s != [] && Includes(s[1..], sub))
  }

  /** An occurrence of `sub` at any position makes `Includes` hold. */
  lemma {:induction false} IncludesAt(s: string, sub: string, i: nat)
    requires i + |sub| <= |s| && s[i..i + |sub|] == sub
    ensures Includes(s, sub)
    decreases i
  {
    if i > 0 {
      assert s[1..][i - 1..i - 1 + |sub|] == s[i..i + |sub|];
      IncludesAt(s[1..], sub, i - 1);
    }
  }

  /** Lower-casing of one character, for the ASCII capitals. */
  function LowerChar(c: char): char {
    if 'A' <= c <= 'Z' then (c as int + 32) as char else c
  }

  /** `s.toLowerCase()` on the ASCII capitals; every other character is kept. */
  function ToLowerAscii(s: string): (r: string)
    ensures |r| == |s| && forall i :: 0 <= i < |s| ==> r[i] == LowerChar(s[i])
  {
    seq(|s|, i requires 0 <= i < |s| => LowerChar(s[i]))
  }

  predicate IsDigit(c: char) {
    '0' <= c <= '9'
  }

  predicate AllDigits(s: string) {
    forall i :: 0 <= i < |s| ==> IsDigit(s[i])
  }

  function DigitChar(d: nat): (c: char)
    requires d < 10
    ensures IsDigit(c)
  {
    ('0' as int + d) as char
  }

  /** `String(n)` for a non-negative integer: its decimal digits, with no
      leading zero. */
  function NatToString(n: nat): (r: string)
    ensures |r| >= 1 && AllDigits(r)
    ensures r[0] == '0' ==> n == 0
    ensures n < 10 <==> |r| == 1
    decreases n
  {
    if n < 10 then [DigitChar(n)] else NatToString(n / 10) + [DigitChar(n % 10)]
  }

  /** `String(i)` for an integer. */
  function IntToString(i: int): string {
    if i < 0 then "-" + NatToString(-i) else NatToString(i)
  }

  /** The value of a string of decimal digits (0 for the empty string). */
  function DecimalValue(s: string): nat
    requires AllDigits(s)
    decreases |s|
  {
    if s == [] then 0 else 10 * DecimalValue(s[..|s| - 1]) + (s[|s| - 1] as int - '0' as int)
  }

  /** Reading back a rendered number gives the number. */
  lemma {:induction false} DecimalValueOfNatToString(n: nat)
    ensures DecimalValue(NatToString(n)) == n
    decreases n
  {
    if n >= 10 {
      DecimalValueOfNatToString(n / 10);
      var r := NatToString(n);
      assert r[..|r| - 1] == NatToString(n / 10);
    }
  }

  /** The number of decimal digits at the start of `s`. */
  function LeadingDigits(s: string): (n: nat)
    ensures n <= |s| && AllDigits(s[..n]) && (n < |s| ==> !IsDigit(s[n]))
    decreases |s|
  {
    if s != [] && IsDigit(s[0]) then
      var n := 1 + LeadingDigits(s[1..]);
      assert s[..n] == [s[0]] + s[1..][..n - 1];
      n
    else 0
  }
}
