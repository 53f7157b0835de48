/** Small string helpers standing for the Ruby String methods the plugin relies on:
    `split` (whitespace tokens), `strip.empty?`, `downcase`, `capitalize`,
    `Array#join` and `Integer#to_s`. Characters are ASCII-only here. */
module Text {

  /** The characters Ruby's whitespace `split` separates on. */
  predicate IsSpace(c: char) {
    c == ' ' || c == '\t' || c == '\n' || c == '\U{B}' || c == '\U{C}' || c == '\r'
  }

  /** `s.strip.empty?`: nothing but whitespace (strip also drops NUL characters). A text in
      which `split` finds no word is blank. */
  predicate Blank(s: string): (b: bool)
    ensures Tokens(s) == [] ==> b
  {
    forall i :: 0 <= i < |s| ==> IsSpace(s[i]) || s[i] == '\0'
  }

  /** Length of the maximal run of non-space characters at the head of `s`. */
  function WordLength(s: string): (n: nat)
    ensures n <= |s|
    ensures forall i :: 0 <= i < n ==> !IsSpace(s[i])
    ensures n < |s| ==> IsSpace(s[n])
  {
    if |s| == 0 || IsSpace(s[0]) then 0 else 1 + WordLength(s[1..])
  }

  /** `s.split`: the maximal runs of non-space characters, in order. */
  function Tokens(s: string): (r: seq<string>)
    ensures forall k :: 0 <= k < |r| ==> |r[k]| > 0
    ensures forall k :: 0 <= k < |r| ==> forall i :: 0 <= i < |r[k]| ==> !IsSpace(r[k][i])
    ensures (forall i :: 0 <= i < |s| ==> IsSpace(s[i])) <==> r == []
    decreases |s|
  {
    if |s| == 0 then []
    else if IsSpace(s[0]) then
      assert forall i :: 1 <= i < |s| ==> s[i] == s[1..][i - 1];
      Tokens(s[1..])
    else
      var n := WordLength(s);
      [s[..n]] + Tokens(s[n..])
  }

  /** A string made of one word only splits into that word. */
  lemma {:induction false} SingleToken(w: string)
    requires |w| > 0
    requires forall i :: 0 <= i < |w| ==> !IsSpace(w[i])
    ensures Tokens(w) == [w]
  {
    WordLengthOfWord(w);
    assert !IsSpace(w[0]);
    assert w[..|w|] == w;
    assert Tokens(w[|w|..]) == [];
  }

  /** The first word of `a` is unchanged by what follows `a`, when that word ends
      inside `a` or what follows starts with a space. */
  lemma {:induction false} WordLengthOfPrefix(a: string, t: string)
    requires WordLength(a) < |a| || (|t| > 0 && IsSpace(t[0]))
    ensures WordLength(a + t) == WordLength(a)
    decreases |a|
  {
    if |a| > 0 && !IsSpace(a[0]) {
      assert (a + t)[1..] == a[1..] + t;
      WordLengthOfPrefix(a[1..], t);
    }
  }

  /** `split` cuts at every space: the tokens of a text with a space in it are the tokens
      before the space followed by the tokens after it. With `SingleToken` and the case
      of an all-space text this determines `Tokens` completely. */
  lemma {:induction false} TokensSplitAtSpace(a: string, c: char, b: string)
    requires IsSpace(c)
    ensures Tokens(a + [c] + b) == Tokens(a) + Tokens(b)
    decreases |a|
  {
    var s := a + [c] + b;
    if |a| == 0 {
      assert s[1..] == b;
    } else if IsSpace(a[0]) {
      assert s[1..] == a[1..] + [c] + b;
      TokensSplitAtSpace(a[1..], c, b);
    } else {
      var m := WordLength(a);
      WordLengthOfPrefix(a, [c] + b);
      assert s == a + ([c] + b);
      assert s[..m] == a[..m];
      assert s[m..] == a[m..] + [c] + b;
      TokensSplitAtSpace(a[m..], c, b);
    }
  }

  /** A text is blank exactly when both of its parts are. */
  lemma BlankConcat(a: string, b: string)
    ensures Blank(a + b) <==> Blank(a) && Blank(b)
  {
    assert forall i :: 0 <= i < |a| ==> (a + b)[i] == a[i];
    assert forall i :: 0 <= i < |b| ==> (a + b)[|a| + i] == b[i];
  }

  /** `strip.empty?` and `split` agree up to NUL: a text is blank exactly when every word
      that `split` finds in it consists of NUL characters only. */
  lemma {:induction false} BlankIffOnlyNulWords(s: string)
    ensures Blank(s) <==> AllBlank(Tokens(s))
    decreases |s|
  {
    if |s| > 0 {
      if IsSpace(s[0]) {
        assert s == [s[0]] + s[1..];
        BlankConcat([s[0]], s[1..]);
        assert Blank([s[0]]);
        BlankIffOnlyNulWords(s[1..]);
        assert Tokens(s) == Tokens(s[1..]);
      } else {
        var n := WordLength(s);
        assert s == s[..n] + s[n..];
        BlankConcat(s[..n], s[n..]);
        BlankIffOnlyNulWords(s[n..]);
        assert Tokens(s) == [s[..n]] + Tokens(s[n..]);
        AllBlankCons(s[..n], Tokens(s[n..]));
      }
    }
  }

  /** Every text in the list is blank. */
  predicate AllBlank(ws: seq<string>) {
    forall k :: 0 <= k < |ws| ==> Blank(ws[k])
  }

  lemma AllBlankCons(w: string, ws: seq<string>)
    ensures AllBlank([w] + ws) <==> Blank(w) && AllBlank(ws)
  {
    var l := [w] + ws;
    assert l[0] == w;
    assert forall k :: 0 <= k < |ws| ==> l[k + 1] == ws[k];
    if Blank(w) && AllBlank(ws) {
      forall k | 0 <= k < |l| ensures Blank(l[k]) {
        if k > 0 {
          assert l[k] == ws[k - 1];
        }
      }
    }
  }

  lemma {:induction false} WordLengthOfWord(w: string)
    requires forall i :: 0 <= i < |w| ==> !IsSpace(w[i])
    ensures WordLength(w) == |w|
    decreases |w|
  {
    if |w| > 0 {
      WordLengthOfWord(w[1..]);
    }
  }

  function LowerChar(c: char): (d: char)
    ensures 'A' <= c <= 'Z' ==> 'a' <= d <= 'z' && d as int == c as int + 32
    ensures !('A' <= c <= 'Z') ==> d == c
  {
    if 'A' <= c <= 'Z' then (c as int + 32) as char else c
  }

  function UpperChar(c: char): (d: char)
    ensures 'a' <= c <= 'z' ==> 'A' <= d <= 'Z' && d as int == c as int - 32
    ensures !('a' <= c <= 'z') ==> d == c
  {
    if 'a' <= c <= 'z' then (c as int - 32) as char else c
  }

  /** `s.downcase`, ASCII letters only. */
  function Lower(s: string): (r: string)
    ensures |r| == |s|
    ensures forall i :: 0 <= i < |s| ==> r[i] == LowerChar(s[i])
  {
    seq(|s|, i requires 0 <= i < |s| => LowerChar(s[i]))
  }

  /** A string without upper-case letters is its own lower-case form. */
  lemma LowerOfLower(s: string)
    requires forall i :: 0 <= i < |s| ==> !('A' <= s[i] <= 'Z')
    ensures Lower(s) == s
  {
  }

  /** `s.capitalize`: first character upper-cased, the rest lower-cased. */
  function Capitalize(s: string): (r: string)
    ensures |r| == |s|
    ensures |s| > 0 ==> r[0] == UpperChar(s[0]) && r[1..] == Lower(s[1..])
  {
    if |s| == 0 then "" else [UpperChar(s[0])] + Lower(s[1..])
  }

  /** `parts.join(sep)`. */
  function Join(parts: seq<string>, sep: string): (r: string)
    ensures |parts| == 1 ==> r == parts[0]
    ensures parts == [] ==> r == ""
    ensures |parts| > 0 ==> |r| >= |parts[0]| && r[..|parts[0]|] == parts[0]
    ensures |parts| > 0 ==> |r| >= |parts[|parts| - 1]| && r[|r| - |parts[|parts| - 1]|..] == parts[|parts| - 1]
    decreases |parts|
  {
    if |parts| == 0 then ""
    else if |parts| == 1 then parts[0]
    else Join(parts[..|parts| - 1], sep) + sep + parts[|parts| - 1]
  }

  predicate IsDigit(c: char) {
    '0' <= c <= '9'
  }

  function DigitChar(d: nat): (c: char)
    requires d < 10
    ensures IsDigit(c)
  {
    ['0', '1', '2', '3', '4', '5', '6', '7', '8', '9'][d]
  }

  function DigitValue(c: char): (d: nat)
    requires IsDigit(c)
    ensures d < 10
  {
    (c as int - '0' as int)
  }

  /** `n.to_s` in base ten. */
  function Decimal(n: nat): (r: string)
    ensures |r| > 0
    decreases n
  {
    if n < 10 then [DigitChar(n)] else Decimal(n / 10) + [DigitChar(n % 10)]
  }

  /** The number a string of decimal digits denotes. */
  function DigitsValue(s: string): nat
    requires forall i :: 0 <= i < |s| ==> IsDigit(s[i])
    decreases |s|
  {
    if |s| == 0 then 0 else 10 * DigitsValue(s[..|s| - 1]) + DigitValue(s[|s| - 1])
  }

  lemma DigitRoundTrip(d: nat)
    requires d < 10
    ensures DigitValue(DigitChar(d)) == d
  {
  }

  /** `to_s` writes only digits, with no leading zero, and reading them back gives `n`. */
  lemma {:induction false} DecimalRoundTrip(n: nat)
    ensures forall i :: 0 <= i < |Decimal(n)| ==> IsDigit(Decimal(n)[i])
    ensures |Decimal(n)| > 1 ==> Decimal(n)[0] != '0'
    ensures DigitsValue(Decimal(n)) == n
    decreases n
  {
    if n < 10 {
      DigitRoundTrip(n);
    } else {
      DecimalRoundTrip(n / 10);
      var s := Decimal(n);
      var p := Decimal(n / 10);
      assert s == p + [DigitChar(n % 10)];
      assert s[..|s| - 1] == p;
      DigitRoundTrip(n % 10);
      assert n / 10 >= 1;
      assert |p| > 1 ==> s[0] == p[0];
      if |p| == 1 {
        assert p == [DigitChar(n / 10)];
        assert s[0] == DigitChar(n / 10);
      }
    }
  }
}
