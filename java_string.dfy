/**
 * The java.lang.String and java.lang.Integer operations that the storage
 * system's command parsing and message building rely on: trim, split on a
 * single space (with and without a limit), ASCII case folding, decimal
 * formatting and parsing of int values, and String.join.
 */
module JavaString {

  /** A Java reference that may be null: None stands for null. */
  datatype Option<T> = None | Some(value: T)

  const INT_MIN: int := -0x8000_0000
  const INT_MAX: int := 0x7FFF_FFFF

  const TWO_TO_32: int := 0x1_0000_0000

  /** The int value Java computes for x: x reduced to 32-bit two's complement. */
  function Int32Wrap(x: int): (r: int)
    ensures INT_MIN <= r <= INT_MAX
    ensures (x - r) % TWO_TO_32 == 0
    ensures INT_MIN <= x <= INT_MAX ==> r == x
  {
    var m := x % TWO_TO_32;
    if m > INT_MAX then m - TWO_TO_32 else m
  }

  /** String.trim removes every leading and trailing character whose code is at most U+0020. */
  predicate IsTrimmable(c: char) {
    c <= ' '
  }

  predicate NoSpace(s: string) {
    ' ' !in s
  }

  /** Removes trailing trimmable characters: the longest prefix that does not end in one. */
  function TrimEnd(s: string): (r: string)
    ensures r <= s
    ensures r == [] || !IsTrimmable(r[|r| - 1])
    ensures forall i :: |r| <= i < |s| ==> IsTrimmable(s[i])
  {
    if s != [] && IsTrimmable(s[|s| - 1]) then TrimEnd(s[..|s| - 1]) else s
  }

  /** Removes leading trimmable characters: the longest suffix that does not start with one. */
  function TrimStart(s: string): (r: string)
    ensures |r| <= |s| && r == s[|s| - |r|..]
    ensures r == [] || !IsTrimmable(r[0])
    ensures forall i :: 0 <= i < |s| - |r| ==> IsTrimmable(s[i])
  {
    if s != [] && IsTrimmable(s[0]) then TrimStart(s[1..]) else s
  }

  /** String.trim. */
  function Trim(s: string): string {
    TrimStart(TrimEnd(s))
  }

  /** Index of the first occurrence of c in s. */
  function IndexOf(s: string, c: char): (i: nat)
    requires c in s
    ensures i < |s| && s[i] == c && c !in s[..i]
  {
    if s[0] == c then 0 else 1 + IndexOf(s[1..], c)
  }

  /**
   * s.split(" ", 2): the text before the first space and, when there is a
   * space, the text after it (None when the resulting array has one element).
   */
  function SplitFirst(s: string): (string, Option<string>) {
    if NoSpace(s) then (s, None)
    else
      var i := IndexOf(s, ' ');
      (s[..i], Some(s[i + 1..]))
  }

  /** Every piece between single spaces, empty pieces included. */
  function SplitAll(s: string): (parts: seq<string>)
    ensures |parts| >= 1
    decreases |s|
  {
    var (head, tail) := SplitFirst(s);
    match tail
    case None => [head]
    case Some(rest) => [head] + SplitAll(rest)
  }

  function DropTrailingEmpty(parts: seq<string>): (r: seq<string>)
    ensures r <= parts
    ensures r == [] || r[|r| - 1] != ""
    ensures forall i :: |r| <= i < |parts| ==> parts[i] == ""
  {
    if parts != [] && parts[|parts| - 1] == "" then DropTrailingEmpty(parts[..|parts| - 1]) else parts
  }

  /**
   * s.split(" "): with no space the array is [s]; otherwise the pieces, with
   * trailing empty strings removed (which may leave no element at all).
   */
  function Split(s: string): seq<string> {
    if NoSpace(s) then [s] else DropTrailingEmpty(SplitAll(s))
  }

  /** s.split(" ", 3): at most three pieces, the last one keeps its spaces. */
  function SplitLimit3(s: string): seq<string> {
    var (first, rest) := SplitFirst(s);
    match rest
    case None => [first]
    case Some(r) =>
      var (second, rest2) := SplitFirst(r);
      match rest2
      case None => [first, second]
      case Some(third) => [first, second, third]
  }

  /** String.join(sep, parts). */
  function Join(sep: string, parts: seq<string>): string
  {
    if parts == [] then ""
    else if |parts| == 1 then parts[0]
    else parts[0] + sep + Join(sep, parts[1..])
  }

  /** String.valueOf of a possibly null string, as PrintWriter.print and String.join render it. */
  function StringOf(s: Option<string>): string {
    match s
    case None => "null"
    case Some(t) => t
  }

  function ToUpperChar(c: char): char {
    if 'a' <= c <= 'z' then (c as int - 32) as char else c
  }

  /** String.toUpperCase, restricted to ASCII letters. */
  function ToUpper(s: string): (r: string)
    ensures |r| == |s|
  {
    seq(|s|, i requires 0 <= i < |s| => ToUpperChar(s[i]))
  }

  /** String.equalsIgnoreCase, restricted to ASCII letters. */
  predicate EqualsIgnoreCase(a: string, b: string) {
    ToUpper(a) == ToUpper(b)
  }

  predicate IsDigit(c: char) {
    '0' <= c <= '9'
  }

  predicate AllDigits(s: string) {
    forall i :: 0 <= i < |s| ==> IsDigit(s[i])
  }

  function DigitChar(d: nat): (c: char)
    requires d < 10
    ensures IsDigit(c)
  {
    ('0' as int + d) as char
  }

  /** Decimal digits of a natural number, most significant first, without leading zeros. */
  function NatToString(n: nat): (r: string)
    ensures |r| >= 1 && AllDigits(r)
    ensures |r| > 1 ==> r[0] != '0'
  {
    if n < 10 then [DigitChar(n)] else NatToString(n / 10) + [DigitChar(n % 10)]
  }

  /** Integer.toString / String.valueOf(int). */
  function IntToString(n: int): (r: string)
    ensures |r| >= 1 && NoSpace(r) && !IsTrimmable(r[0]) && !IsTrimmable(r[|r| - 1])
  {
    if n < 0 then "-" + NatToString(-n) else NatToString(n)
  }

  function DigitsValue(s: string): nat
    requires AllDigits(s)
  {
    if s == [] then 0 else DigitsValue(s[..|s| - 1]) * 10 + (s[|s| - 1] as int - '0' as int)
  }

  /**
   * Integer.parseInt(s): an optional sign followed by at least one ASCII
   * digit, within the int range; None where Java throws NumberFormatException.
   */
  function ParseInt(s: string): Option<int> {
    if s == [] then None
    else
      var negative := s[0] == '-';
      var digits := if s[0] == '-' || s[0] == '+' then s[1..] else s;
      if digits == [] || !AllDigits(digits) then None
      else
        var v: int := if negative then -(DigitsValue(digits) as int) else DigitsValue(digits);
        if INT_MIN <= v <= INT_MAX then Some(v) else None
  }

  // ---------------------------------------------------------------------
  // Lemmas
  // ---------------------------------------------------------------------

  lemma {:induction false} DigitsValueOfNatToString(n: nat)
    ensures DigitsValue(NatToString(n)) == n
  {
    if n >= 10 {
      DigitsValueOfNatToString(n / 10);
      var s := NatToString(n);
      assert s[..|s| - 1] == NatToString(n / 10);
    }
  }

  /** Integer.parseInt inverts Integer.toString on every int value. */
  lemma ParseIntOfIntToString(n: int)
    requires INT_MIN <= n <= INT_MAX
    ensures ParseInt(IntToString(n)) == Some(n)
  {
    if n < 0 {
      DigitsValueOfNatToString(-n);
      assert ("-" + NatToString(-n))[1..] == NatToString(-n);
    } else {
      DigitsValueOfNatToString(n);
    }
  }

  /** split(" ", 2) finds the first space: a space-free head is recovered exactly. */
  lemma {:induction false} SplitFirstOf(a: string, b: string)
    requires NoSpace(a)
    ensures SplitFirst(a + " " + b) == (a, Some(b))
  {
    var s := a + " " + b;
    assert s[|a|] == ' ';
    var i := IndexOf(s, ' ');
    assert forall j :: 0 <= j < |a| ==> s[j] == a[j];
    assert s[..i] == a && s[i + 1..] == b;
  }

  /** Trailing white space after a non-blank tail only trims that tail. */
  lemma {:induction false} TrimEndAppend(p: string, q: string)
    requires TrimEnd(q) != []
    ensures TrimEnd(p + q) == p + TrimEnd(q)
    decreases |q|
  {
    if IsTrimmable(q[|q| - 1]) {
      assert (p + q)[..|p + q| - 1] == p + q[..|q| - 1];
      TrimEndAppend(p, q[..|q| - 1]);
    }
  }

  /** A blank tail disappears entirely under TrimEnd. */
  lemma {:induction false} TrimEndBlankTail(p: string, q: string)
    requires TrimEnd(q) == []
    ensures TrimEnd(p + q) == TrimEnd(p)
    decreases |q|
  {
    if q != [] {
      assert (p + q)[..|p + q| - 1] == p + q[..|q| - 1];
      TrimEndBlankTail(p, q[..|q| - 1]);
    } else {
      assert p + q == p;
    }
  }

  /** Joining two non-empty lists is joining each and putting the separator between them. */
  lemma {:induction false} JoinConcat(sep: string, a: seq<string>, b: seq<string>)
    requires a != [] && b != []
    ensures Join(sep, a + b) == Join(sep, a) + sep + Join(sep, b)
    decreases |a|
  {
    assert (a + b)[0] == a[0];
    if |a| == 1 {
      assert (a + b)[1..] == b;
    } else {
      assert (a + b)[1..] == a[1..] + b;
      JoinConcat(sep, a[1..], b);
    }
  }

  /** Leading white space disappears entirely under TrimStart. */
  lemma {:induction false} TrimStartBlankHead(p: string, q: string)
    requires forall i :: 0 <= i < |p| ==> IsTrimmable(p[i])
    ensures TrimStart(p + q) == TrimStart(q)
    decreases |p|
  {
    if p != [] {
      assert (p + q)[1..] == p[1..] + q;
      TrimStartBlankHead(p[1..], q);
    } else {
      assert p + q == q;
    }
  }

  /** A text that starts with a non-blank character keeps it first under trim when it has another non-blank character at k. */
  lemma TrimKeepsHead(s: string, k: nat)
    requires k < |s| && !IsTrimmable(s[0]) && !IsTrimmable(s[k])
    ensures Trim(s) != [] && Trim(s)[0] == s[0]
  {
    var e := TrimEnd(s);
    assert |e| > k;
    assert e[0] == s[0];
    assert TrimStart(e) == e;
  }

  /** The last piece of a split is everything after the last space: non-empty when the text does not end in one. */
  lemma {:induction false} SplitAllLastNonEmpty(s: string)
    requires s != [] && s[|s| - 1] != ' '
    ensures SplitAll(s)[|SplitAll(s)| - 1] != ""
    decreases |s|
  {
    var (head, tail) := SplitFirst(s);
    if tail.Some? {
      var i := IndexOf(s, ' ');
      assert tail.value == s[i + 1..];
      SplitAllLastNonEmpty(tail.value);
    }
  }

  /** Two space-free words in front of a text split off as the first two pieces. */
  lemma SplitAllOfTwo(a: string, b: string, c: string)
    requires NoSpace(a) && NoSpace(b)
    ensures SplitAll(a + " " + b + " " + c) == [a, b] + SplitAll(c)
  {
    var r := b + " " + c;
    assert a + " " + b + " " + c == a + " " + r;
    SplitFirstOf(a, r);
    SplitFirstOf(b, c);
    TwoPiecesAll(a + " " + r, a, r, b, c);
  }

  lemma TwoPiecesAll(s: string, a: string, r: string, b: string, c: string)
    requires SplitFirst(s) == (a, Some(r)) && SplitFirst(r) == (b, Some(c))
    ensures SplitAll(s) == [a, b] + SplitAll(c)
  {
  }

  lemma TwoPiecesLimit3(s: string, a: string, r: string, b: string, c: string)
    requires SplitFirst(s) == (a, Some(r)) && SplitFirst(r) == (b, Some(c))
    ensures SplitLimit3(s) == [a, b, c]
  {
  }

  /**
   * Two space-free words and a text that does not end in a space: split(" ")
   * gives the two words and then the text's pieces.
   */
  lemma SplitOfTwo(a: string, b: string, c: string)
    requires NoSpace(a) && NoSpace(b)
    requires c != [] && c[|c| - 1] != ' '
    ensures Split(a + " " + b + " " + c) == [a, b] + SplitAll(c)
  {
    SplitAllOfTwo(a, b, c);
    SplitOfParts(a + " " + b + " " + c, [a, b], c);
  }

  lemma SplitOfParts(s: string, p: seq<string>, c: string)
    requires SplitAll(s) == p + SplitAll(c) && p != []
    requires c != [] && c[|c| - 1] != ' '
    ensures Split(s) == p + SplitAll(c)
  {
    SplitAllLastNonEmpty(c);
    SplitKeepsNonEmptyLast(s, p, SplitAll(c));
  }

  /** split(" ", 3) of two space-free words and a text: the two words and the whole text. */
  lemma SplitLimit3OfTwo(a: string, b: string, c: string)
    requires NoSpace(a) && NoSpace(b)
    ensures SplitLimit3(a + " " + b + " " + c) == [a, b, c]
  {
    var r := b + " " + c;
    assert a + " " + b + " " + c == a + " " + r;
    SplitFirstOf(a, r);
    SplitFirstOf(b, c);
    TwoPiecesLimit3(a + " " + r, a, r, b, c);
  }

  /** With two pieces or more and a non-empty last one, split(" ") drops nothing. */
  lemma SplitKeepsNonEmptyLast(s: string, p: seq<string>, t: seq<string>)
    requires SplitAll(s) == p + t && p != [] && t != [] && t[|t| - 1] != ""
    ensures Split(s) == p + t
  {
    assert (p + t)[|p + t| - 1] == t[|t| - 1];
  }

  /** A text that starts and ends with characters trim keeps is its own trim. */
  lemma TrimKeepsEnds(s: string)
    requires s != [] && !IsTrimmable(s[0]) && !IsTrimmable(s[|s| - 1])
    ensures Trim(s) == s
  {
    assert TrimEnd(s) == s;
  }

  /** A line that splits once into a word and a non-empty space-free rest gives those two tokens. */
  lemma SplitOfOneWord(s: string, a: string, b: string)
    requires SplitFirst(s) == (a, Some(b)) && NoSpace(b) && b != []
    ensures Split(s) == [a, b]
  {
    assert SplitAll(s) == [a] + SplitAll(b);
    assert SplitAll(b) == [b];
  }

  /** Trim removes a blank prefix and a blank suffix around a text it keeps whole. */
  lemma TrimBlankAround(pre: string, word: string, post: string)
    requires forall i :: 0 <= i < |pre| ==> IsTrimmable(pre[i])
    requires forall i :: 0 <= i < |post| ==> IsTrimmable(post[i])
    requires word != [] && !IsTrimmable(word[0]) && !IsTrimmable(word[|word| - 1])
    ensures Trim(pre + word + post) == word
  {
    assert TrimEnd(post) == [];
    TrimEndBlankTail(pre + word, post);
    assert (pre + word)[|pre + word| - 1] == word[|word| - 1];
    assert TrimEnd(pre + word) == pre + word;
    TrimStartBlankHead(pre, word);
    TrimKeepsEnds(word);
  }
}
