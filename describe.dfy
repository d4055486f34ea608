/** The text of a node, as `AVLNode::to_string` writes it: the key in
    decimal, then the balance field in parentheses, e.g. `-12(1)`; and the
    reading back of both numbers from such a label. */
module Describe {

  /** The decimal digit character for `d`. */
  function DigitChar(d: int): (c: char)
    requires 0 <= d < 10
    ensures '0' <= c <= '9' && c as int - '0' as int == d
  {
    (d + '0' as int) as char
  }

  predicate IsDigits(s: string) {
    forall i :: 0 <= i < |s| ==> '0' <= s[i] <= '9'
  }

  /** The decimal text of a natural number, without leading zeros. */
  function NatToString(n: nat): (s: string)
    ensures |s| > 0 && IsDigits(s)
    ensures (s[0] == '0') <==> n == 0
  {
    if n < 10 then [DigitChar(n)] else NatToString(n / 10) + [DigitChar(n % 10)]
  }

  /** The value of a string of decimal digits. */
  function ParseNat(s: string): int {
    if |s| == 0 then 0
    else 10 * ParseNat(s[..|s| - 1]) + (s[|s| - 1] as int - '0' as int)
  }

  /** The decimal text of an integer, with a leading '-' when it is
      negative, as `operator<<` writes an `int`. */
  function IntToString(n: int): (s: string)
    ensures |s| > 0 && '(' !in s && ')' !in s
    ensures (s[0] == '-') <==> n < 0
  {
    if n < 0 then "-" + NatToString(-n) else NatToString(n)
  }

  /** The value of a decimal text with an optional leading '-'. */
  function ParseInt(s: string): int {
    if |s| > 0 && s[0] == '-' then -ParseNat(s[1..]) else ParseNat(s)
  }

  /** The label `key(balance)` of a node. */
  function NodeLabel(k: int, b: int): string {
    IntToString(k) + "(" + IntToString(b) + ")"
  }

  /** The position of the first '(' in `s`, or `|s|` when there is none. */
  function OpenParen(s: string): (i: nat)
    ensures i <= |s| && (i < |s| ==> s[i] == '(')
    ensures forall j :: 0 <= j < i ==> s[j] != '('
  {
    if |s| == 0 then 0
    else if s[0] == '(' then 0
    else 1 + OpenParen(s[1..])
  }

  /** The key written in a label: the number before the first '('. */
  function LabelKey(s: string): int {
    ParseInt(s[..OpenParen(s)])
  }

  /** The balance written in a label: the number between the first '(' and
      the closing ')' at the end. */
  function LabelBalance(s: string): int {
    var i := OpenParen(s);
    if i + 1 < |s| then ParseInt(s[i + 1..|s| - 1]) else 0
  }

  lemma {:induction false} NatRoundTrip(n: nat)
    ensures ParseNat(NatToString(n)) == n
  {
    var s := NatToString(n);
    if n >= 10 {
      NatRoundTrip(n / 10);
      assert s[..|s| - 1] == NatToString(n / 10);
    }
  }

  /** Reading back the decimal text of an integer gives the integer. */
  lemma {:induction false} IntRoundTrip(n: int)
    ensures ParseInt(IntToString(n)) == n
  {
    if n < 0 {
      NatRoundTrip(-n);
      assert IntToString(n)[1..] == NatToString(-n);
    } else {
      NatRoundTrip(n);
    }
  }

  /** A label gives back the key and the balance it was written from. */
  lemma {:induction false} LabelRoundTrip(k: int, b: int)
    ensures LabelKey(NodeLabel(k, b)) == k
    ensures LabelBalance(NodeLabel(k, b)) == b
  {
    var s := NodeLabel(k, b);
    var ks := IntToString(k);
    var bs := IntToString(b);
    assert s[|ks|] == '(';
    assert forall j :: 0 <= j < |ks| ==> s[j] == ks[j] && ks[j] != '(';
    OpenParenAt(s, |ks|);
    assert s[..|ks|] == ks;
    assert s[|ks| + 1..|s| - 1] == bs;
    IntRoundTrip(k);
    IntRoundTrip(b);
  }

  lemma {:induction false} OpenParenAt(s: string, i: nat)
    requires i < |s| && s[i] == '('
    requires forall j :: 0 <= j < i ==> s[j] != '('
    ensures OpenParen(s) == i
  {
    if i > 0 {
      OpenParenAt(s[1..], i - 1);
    }
  }

  /** Two nodes get the same label only when key and balance agree. */
  lemma {:induction false} LabelInjective(k: int, b: int, k': int, b': int)
    requires NodeLabel(k, b) == NodeLabel(k', b')
    ensures k == k' && b == b'
  {
    LabelRoundTrip(k, b);
    LabelRoundTrip(k', b');
  }
}
