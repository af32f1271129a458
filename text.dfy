/** Python string behaviour the pipeline depends on: `str.strip()`, `str.split(sep)`,
    `str.split()`, `sep.join(parts)`, `int(s)`, `f"{n:0w}"` zero padding and
    `os.path.basename`. Strings are `seq<char>`; whitespace is the ASCII part of
    Python's `str.isspace()`. */
module Text {

  datatype Option<T> = None | Some(value: T)

  /** Python's `str.isspace()` restricted to ASCII: tab, LF, VT, FF, CR, the four
      information separators 0x1C-0x1F and space. */
  predicate IsSpace(c: char) {
    c == ' ' || ('\t' <= c <= '\r') || ('\U{001C}' <= c <= '\U{001F}')
  }

  predicate IsDigit(c: char) { '0' <= c <= '9' }

  /** A word as `str.split()` produces it: non-empty, no whitespace. */
  predicate IsWord(w: string) {
    w != [] && forall i :: 0 <= i < |w| ==> !IsSpace(w[i])
  }

  predicate StartsWith(s: string, prefix: string) {
    |prefix| <= |s| && s[..|prefix|] == prefix
  }

  predicate EndsWith(s: string, suffix: string) {
    |suffix| <= |s| && s[|s| - |suffix|..] == suffix
  }

  // ---------------------------------------------------------------- strip

  /** `s.lstrip()`. */
  function TrimLeft(s: string): (r: string)
    ensures |r| <= |s|
    ensures r == [] || !IsSpace(r[0])
  {
    if s != [] && IsSpace(s[0]) then TrimLeft(s[1..]) else s
  }

  /** `s.rstrip()`. */
  function TrimRight(s: string): string {
    if s != [] && IsSpace(s[|s| - 1]) then TrimRight(s[..|s| - 1]) else s
  }

  /** `lstrip` removes exactly the leading run of whitespace. */
  lemma {:induction false} TrimLeftRemovesLeadingSpace(s: string)
    ensures |TrimLeft(s)| <= |s| && TrimLeft(s) == s[|s| - |TrimLeft(s)|..]
    ensures TrimLeft(s) == [] || !IsSpace(TrimLeft(s)[0])
    ensures forall i :: 0 <= i < |s| - |TrimLeft(s)| ==> IsSpace(s[i])
  {
    if s != [] && IsSpace(s[0]) {
      TrimLeftRemovesLeadingSpace(s[1..]);
      forall i | 0 <= i < |s| - |TrimLeft(s)| ensures IsSpace(s[i]) {
        if i > 0 { assert s[i] == s[1..][i - 1]; }
      }
    }
  }

  /** `rstrip` removes exactly the trailing run of whitespace. */
  lemma {:induction false} TrimRightRemovesTrailingSpace(s: string)
    ensures |TrimRight(s)| <= |s| && TrimRight(s) == s[..|TrimRight(s)|]
    ensures TrimRight(s) == [] || !IsSpace(TrimRight(s)[|TrimRight(s)| - 1])
    ensures forall i :: |TrimRight(s)| <= i < |s| ==> IsSpace(s[i])
  {
    if s != [] && IsSpace(s[|s| - 1]) {
      var t := s[..|s| - 1];
      TrimRightRemovesTrailingSpace(t);
      assert TrimRight(s) == TrimRight(t);
      assert t[..|TrimRight(t)|] == s[..|TrimRight(t)|];
      forall i | |TrimRight(s)| <= i < |s| ensures IsSpace(s[i]) {
        if i < |s| - 1 { assert s[i] == t[i]; }
      }
    }
  }

  /** `s.strip()`. */
  function Strip(s: string): string {
    TrimLeft(TrimRight(s))
  }

  /** A string that neither starts nor ends with whitespace is its own `strip()`. */
  lemma StripIdentity(s: string)
    requires s == [] || (!IsSpace(s[0]) && !IsSpace(s[|s| - 1]))
    ensures Strip(s) == s
  {
  }

  // ---------------------------------------------------- split(sep) / join

  function IndexOf(s: string, c: char): (i: nat)
    requires c in s
    ensures i < |s| && s[i] == c
    ensures forall k :: 0 <= k < i ==> s[k] != c
  {
    if s[0] == c then 0 else 1 + IndexOf(s[1..], c)
  }

  /** `sep.join(parts)`. */
  function Join(parts: seq<string>, sep: char): string {
    if |parts| == 0 then ""
    else if |parts| == 1 then parts[0]
    else parts[0] + [sep] + Join(parts[1..], sep)
  }

  /** `s.split(sep)` for a one-character separator (never empty). */
  function Split(s: string, sep: char): (parts: seq<string>)
    ensures |parts| >= 1
    decreases |s|
  {
    if sep !in s then [s]
    else
      var i := IndexOf(s, sep);
      [s[..i]] + Split(s[i + 1..], sep)
  }

  /** Joining the pieces of `s.split(sep)` with `sep` gives `s` back. */
  lemma {:induction false} JoinSplit(s: string, sep: char)
    ensures Join(Split(s, sep), sep) == s
    decreases |s|
  {
    if sep in s {
      var i := IndexOf(s, sep);
      var rest := Split(s[i + 1..], sep);
      JoinSplit(s[i + 1..], sep);
      assert ([s[..i]] + rest)[1..] == rest;
      assert s == s[..i] + [sep] + s[i + 1..];
    }
  }

  /** `IndexOf` finds the first occurrence. */
  lemma IndexOfAt(s: string, c: char, j: nat)
    requires j < |s| && s[j] == c
    requires forall k :: 0 <= k < j ==> s[k] != c
    ensures IndexOf(s, c) == j
  {
  }

  /** Splitting at the first separator peels off the text before it. */
  lemma SplitCons(a: string, sep: char, b: string)
    requires sep !in a
    ensures Split(a + [sep] + b, sep) == [a] + Split(b, sep)
  {
    var s := a + [sep] + b;
    assert forall k :: 0 <= k < |a| ==> s[k] == a[k];
    IndexOfAt(s, sep, |a|);
    assert s[..|a|] == a;
    assert s[|a| + 1..] == b;
  }

  /** Three separator-free fields joined by `sep` split back into those fields. */
  lemma SplitThree(a: string, b: string, c: string, sep: char)
    requires sep !in a && sep !in b && sep !in c
    ensures Split(a + [sep] + (b + [sep] + c), sep) == [a, b, c]
  {
    SplitCons(a, sep, b + [sep] + c);
    SplitCons(b, sep, c);
  }

  // ------------------------------------------------------- split() on words

  /** Length of the run of non-space characters at the start of `t`. */
  function WordEnd(t: string): (n: nat)
    ensures n <= |t|
    ensures forall i :: 0 <= i < n ==> !IsSpace(t[i])
    ensures n == |t| || IsSpace(t[n])
  {
    if t == [] || IsSpace(t[0]) then 0 else 1 + WordEnd(t[1..])
  }

  /** `s.split()`: the maximal runs of non-whitespace, in order. */
  function SplitWords(s: string): (ws: seq<string>)
    ensures forall k :: 0 <= k < |ws| ==> IsWord(ws[k])
    decreases |s|
  {
    var t := TrimLeft(s);
    if t == [] then []
    else
      var n := WordEnd(t);
      [t[..n]] + SplitWords(t[n..])
  }

  /** `" ".join(ws)`. */
  function JoinSpace(ws: seq<string>): string {
    Join(ws, ' ')
  }

  lemma WordEndOfWord(w: string, rest: string)
    requires IsWord(w)
    requires rest == [] || IsSpace(rest[0])
    ensures WordEnd(w + rest) == |w|
  {
    var t := w + rest;
    assert forall i :: 0 <= i < |w| ==> t[i] == w[i];
    assert rest != [] ==> t[|w|] == rest[0];
  }

  lemma SplitWordsSpacePrefix(r: string)
    ensures SplitWords(" " + r) == SplitWords(r)
  {
    assert (" " + r)[1..] == r;
  }

  /** A word followed by nothing or by whitespace is the first piece of `split()`. */
  lemma SplitWordsWordPrefix(w: string, rest: string)
    requires IsWord(w)
    requires rest == [] || IsSpace(rest[0])
    ensures SplitWords(w + rest) == [w] + SplitWords(rest)
  {
    var s := w + rest;
    WordEndOfWord(w, rest);
    assert TrimLeft(s) == s;
    assert s[..|w|] == w;
    assert s[|w|..] == rest;
  }

  /** Re-splitting a line built from words gives the same words back: `line.split()`
      recovers exactly the words that were joined into `line`. */
  lemma {:induction false} SplitWordsJoinSpace(ws: seq<string>)
    requires forall k :: 0 <= k < |ws| ==> IsWord(ws[k])
    ensures SplitWords(JoinSpace(ws)) == ws
  {
    if |ws| == 1 {
      SplitWordsWordPrefix(ws[0], "");
      assert ws[0] + "" == ws[0];
    } else if |ws| > 1 {
      var w, rest := ws[0], JoinSpace(ws[1..]);
      assert JoinSpace(ws) == w + (" " + rest);
      SplitWordsWordPrefix(w, " " + rest);
      SplitWordsSpacePrefix(rest);
      SplitWordsJoinSpace(ws[1..]);
      assert ws == [w] + ws[1..];
    }
  }

  /** Joining words gives a line that starts and ends with a non-space character. */
  lemma {:induction false} JoinSpaceEnds(ws: seq<string>)
    requires |ws| >= 1
    requires forall k :: 0 <= k < |ws| ==> IsWord(ws[k])
    ensures JoinSpace(ws) != []
    ensures !IsSpace(JoinSpace(ws)[0]) && !IsSpace(JoinSpace(ws)[|JoinSpace(ws)| - 1])
  {
    if |ws| > 1 {
      JoinSpaceEnds(ws[1..]);
      var s := ws[0] + " " + JoinSpace(ws[1..]);
      assert s[0] == ws[0][0];
      assert s[|s| - 1] == JoinSpace(ws[1..])[|JoinSpace(ws[1..])| - 1];
    }
  }

  /** Appending one word to a joined line. */
  lemma {:induction false} JoinSpaceSnoc(ws: seq<string>, w: string)
    ensures JoinSpace(ws + [w]) == if ws == [] then w else JoinSpace(ws) + " " + w
  {
    if |ws| == 1 {
      assert ws + [w] == [ws[0], w];
      assert [ws[0], w][1..] == [w];
      assert JoinSpace(ws) == ws[0];
      assert JoinSpace(ws + [w]) == ws[0] + [' '] + Join([w], ' ');
    } else if |ws| > 1 {
      assert (ws + [w])[1..] == ws[1..] + [w];
      JoinSpaceSnoc(ws[1..], w);
    }
  }

  // --------------------------------------------------------- integers

  function DigitChar(d: nat): (c: char)
    requires d < 10
    ensures IsDigit(c)
  {
    ('0' as int + d) as char
  }

  function DigitValue(c: char): (d: nat)
    requires IsDigit(c)
    ensures d < 10
  {
    (c as int - '0' as int) as nat
  }

  predicate AllDigits(s: string) {
    forall i :: 0 <= i < |s| ==> IsDigit(s[i])
  }

  /** The number a string of decimal digits denotes (leading zeros allowed). */
  function DigitsValue(s: string): nat
    requires AllDigits(s)
  {
    if s == [] then 0 else 10 * DigitsValue(s[..|s| - 1]) + DigitValue(s[|s| - 1])
  }

  /** `str(n)` for a natural number: shortest decimal form. */
  function NatToString(n: nat): (s: string)
    ensures s != []
  {
    if n < 10 then [DigitChar(n)] else NatToString(n / 10) + [DigitChar(n % 10)]
  }

  /** `str(n)` is made of digits that denote `n`. */
  lemma {:induction false} NatToStringDigits(n: nat)
    ensures AllDigits(NatToString(n))
    ensures DigitsValue(NatToString(n)) == n
  {
    if n >= 10 {
      NatToStringDigits(n / 10);
      var s := NatToString(n);
      assert s[..|s| - 1] == NatToString(n / 10);
      assert forall i :: 0 <= i < |s| - 1 ==> s[i] == NatToString(n / 10)[i];
    }
  }

  /** `str(i)` for any integer. */
  function IntToString(i: int): string {
    if i < 0 then "-" + NatToString(-i) else NatToString(i)
  }

  function Zeros(k: nat): (z: string)
    ensures |z| == k && AllDigits(z)
  {
    if k == 0 then "" else Zeros(k - 1) + "0"
  }

  /** `f"{n:0w}"`: `str(n)` left-padded with zeros to at least `w` characters. */
  function PadNat(n: nat, w: nat): (s: string)
    ensures AllDigits(s)
    ensures |s| >= w
  {
    NatToStringDigits(n);
    var d := NatToString(n);
    if |d| >= w then d else Zeros(w - |d|) + d
  }

  function Pow10(k: nat): (p: nat)
    ensures p >= 1
  {
    if k == 0 then 1 else 10 * Pow10(k - 1)
  }

  lemma AllDigitsAppend(a: string, b: string)
    requires AllDigits(a) && AllDigits(b)
    ensures AllDigits(a + b)
  {
    forall i | 0 <= i < |a + b| ensures IsDigit((a + b)[i]) {
      if i < |a| { assert (a + b)[i] == a[i]; } else { assert (a + b)[i] == b[i - |a|]; }
    }
  }

  lemma ShiftDigit(x: int, p: int, v: int, d: int)
    ensures 10 * (x * p + v) + d == x * (10 * p) + (10 * v + d)
  {
  }

  /** The digits of `a + b` denote `a`'s number shifted left by `|b|` places plus
      `b`'s number. */
  lemma {:induction false} DigitsValueAppend(a: string, b: string)
    requires AllDigits(a) && AllDigits(b)
    ensures AllDigits(a + b)
    ensures DigitsValue(a + b) == DigitsValue(a) * Pow10(|b|) + DigitsValue(b)
    decreases |b|
  {
    AllDigitsAppend(a, b);
    if b == [] {
      assert a + b == a;
    } else {
      var b', d := b[..|b| - 1], DigitValue(b[|b| - 1]);
      assert (a + b)[..|a + b| - 1] == a + b';
      assert (a + b)[|a + b| - 1] == b[|b| - 1];
      DigitsValueAppend(a, b');
      ShiftDigit(DigitsValue(a), Pow10(|b'|), DigitsValue(b'), d);
    }
  }

  lemma {:induction false} ZerosValue(k: nat)
    ensures DigitsValue(Zeros(k)) == 0
  {
    if k > 0 {
      assert Zeros(k)[..k - 1] == Zeros(k - 1);
      ZerosValue(k - 1);
    }
  }

  /** Leading zeros do not change the value. */
  lemma LeadingZerosValue(k: nat, d: string)
    requires AllDigits(d)
    ensures AllDigits(Zeros(k) + d)
    ensures DigitsValue(Zeros(k) + d) == DigitsValue(d)
  {
    DigitsValueAppend(Zeros(k), d);
    ZerosValue(k);
    assert 0 * Pow10(|d|) == 0;
  }

  /** Zero padding does not change the value the digits denote. */
  lemma PadNatValue(n: nat, w: nat)
    ensures DigitsValue(PadNat(n, w)) == n
  {
    NatToStringDigits(n);
    var d := NatToString(n);
    if |d| < w {
      var z := Zeros(w - |d|) + d;
      LeadingZerosValue(w - |d|, d);
      assert PadNat(n, w) == z;
    } else {
      assert PadNat(n, w) == d;
    }
  }

  /** A number below `10^k` has at most `k` digits. */
  lemma {:induction false} NatToStringLength(n: nat, k: nat)
    requires k >= 1 && n < Pow10(k)
    ensures |NatToString(n)| <= k
    decreases n
  {
    if n >= 10 {
      assert k >= 2;
      NatToStringLength(n / 10, k - 1);
    }
  }

  /** Padding a number below `10^w` to width `w` gives exactly `w` digits. */
  lemma PadNatWidth(n: nat, w: nat)
    requires w >= 1 && n < Pow10(w)
    ensures |PadNat(n, w)| == w
  {
    NatToStringLength(n, w);
  }

  /** Python's `int(s)` on base-10 text, restricted to ASCII: surrounding (ASCII)
      whitespace is ignored, then one optional sign and at least one digit `0`-`9`.
      Every other text is `None` here. Python's `int()` also accepts single
      underscores between digits (`"1_0"`), non-ASCII decimal digits and non-ASCII
      whitespace around the number; those texts are `None` in this model. */
  function ParseInt(s: string): (r: Option<int>)
    ensures r.Some? ==> Strip(s) != []
  {
    var t := Strip(s);
    if t == [] then None
    else if (t[0] == '-' || t[0] == '+') then
      var d := t[1..];
      if d != [] && AllDigits(d) then
        var v: int := if t[0] == '-' then -(DigitsValue(d) as int) else DigitsValue(d);
        Some(v)
      else None
    else if AllDigits(t) then Some(DigitsValue(t))
    else None
  }

  /** The decimal form of an integer is a non-empty run of digits after an optional
      minus sign. */
  lemma IntToStringChars(i: int)
    ensures IntToString(i) != []
    ensures forall k :: 0 <= k < |IntToString(i)| ==>
              IntToString(i)[k] == '-' || IsDigit(IntToString(i)[k])
    ensures IsDigit(IntToString(i)[|IntToString(i)| - 1])
  {
    var s := IntToString(i);
    NatToStringDigits(if i < 0 then -i else i);
    assert s[|s| - 1] == NatToString(if i < 0 then -i else i)[|NatToString(if i < 0 then -i else i)| - 1];
    forall k | 0 <= k < |s| ensures s[k] == '-' || IsDigit(s[k]) {
      if i < 0 && k > 0 { assert s[k] == NatToString(-i)[k - 1]; }
    }
  }

  /** Hence the decimal form holds no comma, no underscore and has no whitespace at
      either end. */
  lemma IntToStringClean(i: int)
    ensures IntToString(i) != []
    ensures ',' !in IntToString(i) && '_' !in IntToString(i)
    ensures !IsSpace(IntToString(i)[0]) && !IsSpace(IntToString(i)[|IntToString(i)| - 1])
  {
    IntToStringChars(i);
  }

  /** `int(str(i)) == i`. */
  lemma ParseIntToString(i: int)
    ensures ParseInt(IntToString(i)) == Some(i)
  {
    var s := IntToString(i);
    IntToStringClean(i);
    IntToStringChars(i);
    StripIdentity(s);
    NatToStringDigits(if i < 0 then -i else i);
    if i < 0 {
      assert s[1..] == NatToString(-i);
    }
  }

  // ----------------------------------------------------------- paths

  /** `os.path.basename(p)`: the text after the last `/`. */
  function Basename(p: string): string
    decreases |p|
  {
    if '/' !in p then p
    else Basename(p[IndexOf(p, '/') + 1..])
  }

  /** The basename is a suffix of the path without a `/`. */
  lemma {:induction false} BasenameIsLastComponent(p: string)
    ensures '/' !in Basename(p)
    ensures EndsWith(p, Basename(p))
    decreases |p|
  {
    if '/' in p {
      var i := IndexOf(p, '/');
      var q := p[i + 1..];
      BasenameIsLastComponent(q);
      assert p[|p| - |Basename(q)|..] == q[|q| - |Basename(q)|..];
    }
  }

  /** The basename of a path is the basename of what follows its first `/`. */
  lemma BasenameAtFirstSlash(p: string, i: nat)
    requires i < |p| && p[i] == '/'
    requires forall k :: 0 <= k < i ==> p[k] != '/'
    ensures Basename(p) == Basename(p[i + 1..])
  {
    IndexOfAt(p, '/', i);
  }

  /** A file name with no directory part is its own basename, and the basename of
      `folder + "/" + name` is `name` for a one-level folder. */
  lemma BasenameOfJoin(folder: string, name: string)
    requires '/' !in folder && '/' !in name
    ensures Basename(name) == name
    ensures Basename(folder + ("/" + name)) == name
  {
    var p := folder + ("/" + name);
    assert forall k :: 0 <= k < |folder| ==> p[k] == folder[k];
    BasenameAtFirstSlash(p, |folder|);
    assert p[|folder| + 1..] == name;
  }
}
