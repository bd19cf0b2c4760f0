/** The Python `str` operations the harness relies on, with Python's own semantics:
    `isspace`, `strip()`, `split(sep)`, `split(sep, maxsplit)`, `rsplit(sep, 1)`, `sep.join`,
    `endswith`, `os.path.basename` (POSIX), slicing with negative and out-of-range bounds,
    and `str()` of a non-negative integer. Separators are single characters, as every call
    in the harness uses. */
module PyText {

  /** `c.isspace()`: the characters Python treats as whitespace. */
  predicate IsSpace(c: char) {
    ('\t' <= c <= '\r') || ('\U{1C}' <= c <= ' ') || c == '\U{85}' || c == '\U{A0}'
    || c == '\U{1680}' || ('\U{2000}' <= c <= '\U{200A}') || c == '\U{2028}' || c == '\U{2029}'
    || c == '\U{202F}' || c == '\U{205F}' || c == '\U{3000}'
  }

  /** Neither end of `s` is whitespace: the texts `strip()` leaves unchanged. */
  predicate NoEdgeSpace(s: string) {
    s == [] || (!IsSpace(s[0]) && !IsSpace(s[|s| - 1]))
  }

  /** `s.lstrip()`: the longest suffix of `s` that does not start with whitespace. */
  function TrimStart(s: string): (r: string)
    ensures |r| <= |s|
    ensures r == [] || !IsSpace(r[0])
    decreases |s|
  {
    if s != [] && IsSpace(s[0]) then TrimStart(s[1..]) else s
  }

  /** What `lstrip()` keeps is a suffix of the text. */
  lemma {:induction false} TrimStartIsSuffix(s: string)
    ensures TrimStart(s) == s[|s| - |TrimStart(s)|..]
    decreases |s|
  {
    if s != [] && IsSpace(s[0]) {
      TrimStartIsSuffix(s[1..]);
      assert s[1..][|s| - 1 - |TrimStart(s)|..] == s[|s| - |TrimStart(s)|..];
    }
  }

  /** `s.rstrip()`: the longest prefix of `s` that does not end with whitespace. */
  function TrimEnd(s: string): (r: string)
    ensures |r| <= |s|
    ensures r == [] || !IsSpace(r[|r| - 1])
    decreases |s|
  {
    if s != [] && IsSpace(s[|s| - 1]) then TrimEnd(s[..|s| - 1]) else s
  }

  /** What `rstrip()` keeps is a prefix of the text. */
  lemma {:induction false} TrimEndIsPrefix(s: string)
    ensures TrimEnd(s) == s[..|TrimEnd(s)|]
    decreases |s|
  {
    if s != [] && IsSpace(s[|s| - 1]) {
      TrimEndIsPrefix(s[..|s| - 1]);
      assert s[..|s| - 1][..|TrimEnd(s)|] == s[..|TrimEnd(s)|];
    }
  }

  /** `s.strip()`. */
  function Strip(s: string): (r: string)
    ensures NoEdgeSpace(r)
  {
    var t := TrimStart(s);
    TrimEndIsPrefix(t);
    TrimEnd(t)
  }

  /** `lstrip()` removes only whitespace. */
  lemma {:induction false} TrimStartRemovesSpace(s: string)
    ensures forall i | 0 <= i < |s| - |TrimStart(s)| :: IsSpace(s[i])
    decreases |s|
  {
    if s != [] && IsSpace(s[0]) {
      TrimStartRemovesSpace(s[1..]);
      assert forall i | 1 <= i < |s| :: s[i] == s[1..][i - 1];
    }
  }

  /** `rstrip()` removes only whitespace. */
  lemma {:induction false} TrimEndRemovesSpace(s: string)
    ensures forall i | |TrimEnd(s)| <= i < |s| :: IsSpace(s[i])
    decreases |s|
  {
    if s != [] && IsSpace(s[|s| - 1]) {
      TrimEndRemovesSpace(s[..|s| - 1]);
      assert forall i | 0 <= i < |s| - 1 :: s[i] == s[..|s| - 1][i];
    }
  }

  /** How much leading whitespace `strip()` removes. */
  function StripStart(s: string): (a: nat)
    ensures a + |Strip(s)| <= |s|
  {
    |s| - |TrimStart(s)|
  }

  /** `strip()` removes only whitespace, and only at the ends: the result is the slice of `s` at
      `StripStart(s)`, with whitespace on both sides of it. */
  lemma StripIsInfix(s: string)
    ensures Strip(s) == s[StripStart(s)..StripStart(s) + |Strip(s)|]
    ensures forall i | 0 <= i < StripStart(s) :: IsSpace(s[i])
    ensures forall i | StripStart(s) + |Strip(s)| <= i < |s| :: IsSpace(s[i])
  {
    StripSlice(s);
    TrimStartRemovesSpace(s);
    StripTrailingSpace(s);
  }

  /** The stripped text is the slice of the text at `StripStart(s)`. */
  lemma StripSlice(s: string)
    ensures Strip(s) == s[StripStart(s)..StripStart(s) + |Strip(s)|]
  {
    var t := TrimStart(s);
    TrimStartIsSuffix(s);
    TrimEndIsPrefix(t);
    PrefixOfSuffix(s, |s| - |t|, TrimEnd(t));
  }

  /** A prefix of the suffix of `s` at `a` is the slice of `s` at `a`. */
  lemma PrefixOfSuffix(s: string, a: nat, r: string)
    requires a <= |s| && |r| <= |s| - a && r == s[a..][..|r|]
    ensures r == s[a..a + |r|]
  {
  }

  /** Everything after the stripped text is whitespace. */
  lemma StripTrailingSpace(s: string)
    ensures forall i | StripStart(s) + |Strip(s)| <= i < |s| :: IsSpace(s[i])
  {
    var t := TrimStart(s);
    TrimStartIsSuffix(s);
    TrimEndRemovesSpace(t);
    SpaceAfterPrefix(s, |s| - |t|, |TrimEnd(t)|);
  }

  /** Whitespace after position `n` of the suffix of `s` at `a` is whitespace after position
      `a + n` of `s`. */
  lemma SpaceAfterPrefix(s: string, a: nat, n: nat)
    requires a + n <= |s|
    requires forall i | n <= i < |s[a..]| :: IsSpace(s[a..][i])
    ensures forall i | a + n <= i < |s| :: IsSpace(s[i])
  {
    forall i | a + n <= i < |s|
      ensures IsSpace(s[i])
    {
      assert s[i] == s[a..][i - a];
    }
  }

  /** A text without whitespace at its ends is a fixed point of `strip()`. */
  lemma StripUnchanged(s: string)
    requires NoEdgeSpace(s)
    ensures Strip(s) == s
  {
  }

  /** `strip()` is idempotent. */
  lemma StripIdempotent(s: string)
    ensures Strip(Strip(s)) == Strip(s)
  {
    StripUnchanged(Strip(s));
  }

  /** `strip()` yields the empty text exactly when the text is all whitespace. */
  lemma StripEmptyIff(s: string)
    ensures Strip(s) == [] <==> forall i | 0 <= i < |s| :: IsSpace(s[i])
  {
    StripIsInfix(s);
    var t := TrimStart(s);
    TrimStartIsSuffix(s);
    assert t != [] ==> t[0] == s[|s| - |t|];
  }

  /** Every character `strip()` keeps comes from the text. */
  lemma StripChars(s: string, c: char)
    ensures c in Strip(s) ==> c in s
  {
    StripIsInfix(s);
    if c in Strip(s) {
      var k :| 0 <= k < |Strip(s)| && Strip(s)[k] == c;
      assert s[StripStart(s) + k] == c;
    }
  }

  /** The position of the first `c` in `s`. */
  function FirstIndex(s: string, c: char): (i: nat)
    requires c in s
    ensures i < |s| && s[i] == c && c !in s[..i]
    ensures forall j | 0 <= j < |s| && s[j] == c :: i <= j
  {
    if s[0] == c then 0 else 1 + FirstIndex(s[1..], c)
  }

  /** The position of the last `c` in `s`. */
  function LastIndex(s: string, c: char): (i: nat)
    requires c in s
    ensures i < |s| && s[i] == c && c !in s[i + 1..]
    ensures forall j | 0 <= j < |s| && s[j] == c :: j <= i
    decreases |s|
  {
    if s[|s| - 1] == c then |s| - 1 else LastIndex(s[..|s| - 1], c)
  }

  /** `s.split(sep)`: the pieces between successive occurrences of `sep`, empty pieces included;
      never an empty list. */
  function Split(s: string, sep: char): (r: seq<string>)
    ensures |r| >= 1
    ensures forall k | 0 <= k < |r| :: sep !in r[k]
    decreases |s|
  {
    if sep in s then
      var i := FirstIndex(s, sep);
      [s[..i]] + Split(s[i + 1..], sep)
    else
      [s]
  }

  /** `s.split(sep, maxsplit)`: at most `maxsplit` splits, from the left; the last piece keeps the
      rest of the text, separators and all. */
  function SplitMax(s: string, sep: char, maxsplit: nat): (r: seq<string>)
    ensures 1 <= |r| <= maxsplit + 1
    ensures forall k | 0 <= k < |r| - 1 :: sep !in r[k]
    decreases maxsplit
  {
    if maxsplit > 0 && sep in s then
      var i := FirstIndex(s, sep);
      [s[..i]] + SplitMax(s[i + 1..], sep, maxsplit - 1)
    else
      [s]
  }

  /** `sep.join(pieces)`. */
  function Join(pieces: seq<string>, sep: char): string
    decreases |pieces|
  {
    if |pieces| == 0 then ""
    else if |pieces| == 1 then pieces[0]
    else pieces[0] + [sep] + Join(pieces[1..], sep)
  }

  /** The number of occurrences of `c` in `s`. */
  function Occurrences(s: string, c: char): nat
    decreases |s|
  {
    if s == [] then 0 else (if s[0] == c then 1 else 0) + Occurrences(s[1..], c)
  }

  /** Joining the pieces of a split with the same separator gives back the text. */
  lemma {:induction false} JoinSplit(s: string, sep: char)
    ensures Join(Split(s, sep), sep) == s
    decreases |s|
  {
    if sep in s {
      var i := FirstIndex(s, sep);
      var rest := Split(s[i + 1..], sep);
      var pieces := Split(s, sep);
      SplitFirst(s, sep);
      calc {
        Join(pieces, sep);
        Join([s[..i]] + rest, sep);
        { JoinCons(s[..i], rest, sep); }
        s[..i] + [sep] + Join(rest, sep);
        { JoinSplit(s[i + 1..], sep); }
        s[..i] + [sep] + s[i + 1..];
        { PieceAround(s, i); }
        s;
      }
    }
  }

  /** A text holding the separator splits into the part before its first occurrence and the
      pieces of the rest. */
  lemma SplitFirst(s: string, sep: char)
    requires sep in s
    ensures Split(s, sep) == [s[..FirstIndex(s, sep)]] + Split(s[FirstIndex(s, sep) + 1..], sep)
  {
  }

  /** A text is the part before position `i`, the character there and the part after it. */
  lemma PieceAround(s: string, i: nat)
    requires i < |s|
    ensures s[..i] + [s[i]] + s[i + 1..] == s
  {
  }

  /** A character in neither text is not in their concatenation. */
  lemma ConcatAvoids(a: string, b: string, c: char)
    requires c !in a && c !in b
    ensures c !in a + b
  {
    assert forall k | 0 <= k < |a + b| :: (a + b)[k] == if k < |a| then a[k] else b[k - |a|];
  }

  /** Joining a piece in front of at least one more puts the separator between them. */
  lemma JoinCons(piece: string, rest: seq<string>, sep: char)
    requires |rest| >= 1
    ensures Join([piece] + rest, sep) == piece + [sep] + Join(rest, sep)
  {
    assert ([piece] + rest)[1..] == rest;
  }

  /** Splitting a join of separator-free pieces gives back the pieces. */
  lemma {:induction false} SplitJoin(pieces: seq<string>, sep: char)
    requires |pieces| >= 1
    requires forall k | 0 <= k < |pieces| :: sep !in pieces[k]
    ensures Split(Join(pieces, sep), sep) == pieces
    decreases |pieces|
  {
    if |pieces| > 1 {
      var a, rest := pieces[0], pieces[1..];
      assert pieces == [a] + rest;
      JoinCons(a, rest, sep);
      SplitAtFirst(a, Join(rest, sep), sep);
      SplitJoin(rest, sep);
    } else {
      assert Join(pieces, sep) == pieces[0];
    }
  }

  /** A text whose first separator follows `a` splits into `a` and the pieces of the rest. */
  lemma SplitAtFirst(a: string, t: string, sep: char)
    requires sep !in a
    ensures Split(a + [sep] + t, sep) == [a] + Split(t, sep)
  {
    var s := a + [sep] + t;
    assert s[|a|] == sep;
    assert s[..|a|] == a;
    assert FirstIndex(s, sep) == |a|;
    assert s[|a| + 1..] == t;
  }

  /** A character that is neither the separator nor in any piece is not in the join. */
  lemma {:induction false} JoinAvoids(pieces: seq<string>, sep: char, c: char)
    requires c != sep
    requires forall k | 0 <= k < |pieces| :: c !in pieces[k]
    ensures c !in Join(pieces, sep)
    decreases |pieces|
  {
    if |pieces| > 1 {
      JoinAvoids(pieces[1..], sep, c);
      assert c !in pieces[0];
    }
  }

  /** A join starts with its first piece and ends with its last. */
  lemma {:induction false} JoinEdges(pieces: seq<string>, sep: char)
    requires |pieces| >= 1
    ensures |pieces[0]| <= |Join(pieces, sep)| && Join(pieces, sep)[..|pieces[0]|] == pieces[0]
    ensures EndsWith(Join(pieces, sep), pieces[|pieces| - 1])
    decreases |pieces|
  {
    if |pieces| > 1 {
      JoinEdges(pieces[1..], sep);
      var tail := Join(pieces[1..], sep);
      assert Join(pieces, sep) == pieces[0] + [sep] + tail;
      assert pieces[1..][|pieces| - 2] == pieces[|pieces| - 1];
    }
  }

  /** A leading space in front of a text without edge whitespace is all `strip()` removes. */
  lemma StripSpacePrefix(t: string)
    requires NoEdgeSpace(t)
    ensures Strip([' '] + t) == t
  {
    assert ([' '] + t)[1..] == t;
    assert TrimStart([' '] + t) == TrimStart(t) == t;
    StripUnchanged(t);
  }

  /** A split has one more piece than the text has separators. */
  lemma {:induction false} SplitLength(s: string, sep: char)
    ensures |Split(s, sep)| == Occurrences(s, sep) + 1
    decreases |s|
  {
    if sep in s {
      var i := FirstIndex(s, sep);
      SplitLength(s[i + 1..], sep);
      assert Occurrences(s, sep) == 1 + Occurrences(s[i + 1..], sep) by {
        assert s == s[..i] + ([sep] + s[i + 1..]);
        OccurrencesAppend(s[..i], [sep] + s[i + 1..], sep);
        OccurrencesAbsent(s[..i], sep);
        assert ([sep] + s[i + 1..])[1..] == s[i + 1..];
      }
    } else {
      OccurrencesAbsent(s, sep);
    }
  }

  lemma {:induction false} OccurrencesAppend(a: string, b: string, c: char)
    ensures Occurrences(a + b, c) == Occurrences(a, c) + Occurrences(b, c)
    decreases |a|
  {
    if a != [] {
      assert (a + b)[1..] == a[1..] + b;
      OccurrencesAppend(a[1..], b, c);
    } else {
      assert a + b == b;
    }
  }

  lemma {:induction false} OccurrencesAbsent(s: string, c: char)
    requires c !in s
    ensures Occurrences(s, c) == 0
    decreases |s|
  {
    if s != [] {
      assert forall k | 0 <= k < |s| - 1 :: s[1..][k] == s[k + 1];
      OccurrencesAbsent(s[1..], c);
    }
  }

  /** Two occurrences of the separator give at least three pieces. */
  lemma SplitTwoSeparators(s: string, sep: char, j: nat, k: nat)
    requires j < k < |s| && s[j] == sep && s[k] == sep
    ensures |Split(s, sep)| >= 3
  {
    var i := FirstIndex(s, sep);
    var rest := s[i + 1..];
    assert rest[k - i - 1] == sep;
    assert sep in rest;
    var i2 := FirstIndex(rest, sep);
    assert |Split(rest, sep)| == 1 + |Split(rest[i2 + 1..], sep)|;
  }

  /** `s.split(sep, 1)`: when `sep` occurs, the text before its first occurrence and the rest. */
  lemma SplitOnce(s: string, sep: char)
    ensures sep !in s ==> SplitMax(s, sep, 1) == [s]
    ensures sep in s ==> SplitMax(s, sep, 1) == [s[..FirstIndex(s, sep)], s[FirstIndex(s, sep) + 1..]]
  {
  }

  /** `s.rsplit(sep, 1)`: when `sep` occurs, the text before its last occurrence and the rest. */
  function RSplitOnce(s: string, sep: char): (r: seq<string>)
    ensures 1 <= |r| <= 2
  {
    if sep in s then
      var i := LastIndex(s, sep);
      [s[..i], s[i + 1..]]
    else
      [s]
  }

  /** `rsplit(sep, 1)` splits exactly when the separator occurs, at its last occurrence: the pieces
      joined by the separator give back the text, and the second piece contains no separator. */
  lemma RSplitOnceJoin(s: string, sep: char)
    ensures |RSplitOnce(s, sep)| == 2 <==> sep in s
    ensures |RSplitOnce(s, sep)| == 2 ==>
              RSplitOnce(s, sep)[0] + [sep] + RSplitOnce(s, sep)[1] == s && sep !in RSplitOnce(s, sep)[1]
    ensures |RSplitOnce(s, sep)| == 1 ==> RSplitOnce(s, sep)[0] == s
  {
    if sep in s {
      var i := LastIndex(s, sep);
      assert s == s[..i] + [sep] + s[i + 1..];
    }
  }

  /** `s.endswith(suffix)`. */
  predicate EndsWith(s: string, suffix: string) {
    |suffix| <= |s| && s[|s| - |suffix|..] == suffix
  }

  /** `s.startswith(prefix)`. */
  predicate StartsWith(s: string, prefix: string) {
    |prefix| <= |s| && s[..|prefix|] == prefix
  }

  /** `t in s` for strings: `t` starts the text, or occurs after its first character. */
  predicate Contains(s: string, t: string)
    decreases |s|
  {
    StartsWith(s, t) || (s != [] && Contains(s[1..], t))
  }

  /** Every occurrence of `t` in `s`, at whatever index, makes `t in s` hold. */
  lemma {:induction false} ContainsAt(s: string, t: string, i: nat)
    requires i + |t| <= |s| && s[i..i + |t|] == t
    ensures Contains(s, t)
    decreases i
  {
    if i > 0 {
      assert s[1..][i - 1..i - 1 + |t|] == s[i..i + |t|];
      ContainsAt(s[1..], t, i - 1);
    }
  }

  /** And `t in s` holds only where `t` occurs at some index. */
  lemma {:induction false} ContainsIndex(s: string, t: string) returns (i: nat)
    requires Contains(s, t)
    ensures i + |t| <= |s| && s[i..i + |t|] == t
    decreases |s|
  {
    if StartsWith(s, t) {
      i := 0;
    } else {
      var h := ContainsIndex(s[1..], t);
      assert s[1..][h..h + |t|] == s[h + 1..h + 1 + |t|];
      i := h + 1;
    }
  }

  /** `c.lower()` on ASCII: capital letters become small ones, everything else is kept. */
  function LowerChar(c: char): char {
    if 'A' <= c <= 'Z' then (c as int + 32) as char else c
  }

  /** `s.lower()` on ASCII text. */
  function Lower(s: string): (r: string)
    ensures |r| == |s|
  {
    seq(|s|, k requires 0 <= k < |s| => LowerChar(s[k]))
  }

  /** Lowering a slice is slicing the lowered text. */
  lemma LowerSlice(s: string, i: nat, j: nat)
    requires i <= j <= |s|
    ensures Lower(s[i..j]) == Lower(s)[i..j]
  {
  }

  /** `os.path.basename(path)` for POSIX paths: everything after the last `/`. */
  function Basename(path: string): (b: string)
    ensures '/' !in b
    ensures EndsWith(path, b)
  {
    if '/' in path then path[LastIndex(path, '/') + 1..] else path
  }

  /** A basename ends in every `/`-free suffix of its path. */
  lemma BasenameKeepsSuffix(path: string, suffix: string)
    requires EndsWith(path, suffix) && '/' !in suffix
    ensures EndsWith(Basename(path), suffix)
  {
    if '/' in path {
      var i := LastIndex(path, '/');
      forall j | |path| - |suffix| <= j < |path|
        ensures path[j] != '/'
      {
        assert path[j] == suffix[j - (|path| - |suffix|)];
      }
      assert path[i + 1..][|path| - i - 1 - |suffix|..] == path[|path| - |suffix|..];
    }
  }

  /** How Python normalises one bound of a slice of a sequence of length `n`: a negative bound
      counts from the end, and a bound outside the sequence is clamped to it. */
  function SliceBound(i: int, n: nat): (b: nat)
    ensures b <= n
    ensures 0 <= i <= n ==> b == i
    ensures -(n as int) <= i < 0 ==> b == n + i
  {
    if i < 0 then (if i + n < 0 then 0 else i + n) else if i > n then n else i
  }

  /** `s[start:stop]`: empty when the normalised bounds cross. */
  function Slice(s: string, start: int, stop: int): (r: string)
    ensures |r| <= |s|
  {
    var a, b := SliceBound(start, |s|), SliceBound(stop, |s|);
    if a < b then s[a..b] else []
  }

  /** The decimal digit character for `d`. */
  function DigitChar(d: nat): (c: char)
    requires d < 10
    ensures '0' <= c <= '9'
  {
    (48 + d) as char
  }

  predicate IsDigits(s: string) {
    forall k | 0 <= k < |s| :: '0' <= s[k] <= '9'
  }

  /** `str(n)` for `n >= 0`: its decimal digits, without leading zeros. */
  function DecimalString(n: nat): (r: string)
    ensures |r| >= 1 && IsDigits(r)
    ensures |r| > 1 ==> r[0] != '0'
  {
    if n < 10 then [DigitChar(n)] else DecimalString(n / 10) + [DigitChar(n % 10)]
  }

  /** The number a string of decimal digits denotes: the reading `int()` gives. */
  function DecimalValue(s: string): nat
    requires IsDigits(s)
  {
    if s == [] then 0 else 10 * DecimalValue(s[..|s| - 1]) + (s[|s| - 1] as int - 48)
  }

  /** Reading back what `str()` writes gives the number. */
  lemma {:induction false} DecimalRoundTrip(n: nat)
    ensures DecimalValue(DecimalString(n)) == n
  {
    if n >= 10 {
      var d := DecimalString(n / 10);
      DecimalRoundTrip(n / 10);
      assert (d + [DigitChar(n % 10)])[..|d|] == d;
    }
  }

  /** Different numbers have different decimal texts. */
  lemma DecimalStringInjective(m: nat, n: nat)
    requires DecimalString(m) == DecimalString(n)
    ensures m == n
  {
    DecimalRoundTrip(m);
    DecimalRoundTrip(n);
  }
}
