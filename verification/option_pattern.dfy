/** One match of the dropdown filter's pattern
      <option .*? value="ID">.*?</option>
    with no modifiers: `.` is any character but a line feed, both groups are
    lazy, and ID is the offline page id printed in decimal. A match is found
    the way a backtracking matcher finds it: the first group is tried with
    0, 1, 2, ... characters, and for each the second group stops at the first
    `</option>`. */
module OptionPattern {
  import opened Wrappers

  const Open: string := "<option "
  const Close: string := "</option>"

  function DigitChar(d: nat): (c: char)
    requires d < 10
    ensures '0' <= c <= '9'
    ensures c as int - '0' as int == d
  {
    "0123456789"[d]
  }

  /** Decimal text of a natural number, as PHP prints an int. */
  function NatToDecimal(n: nat): (r: string)
    ensures 0 < |r|
    ensures forall i :: 0 <= i < |r| ==> '0' <= r[i] <= '9'
    ensures r[0] == '0' ==> r == "0"
    decreases n
  {
    if n < 10 then [DigitChar(n)] else NatToDecimal(n / 10) + [DigitChar(n % 10)]
  }

  /** The value of a string of decimal digits. */
  function DecimalValue(s: string): nat
    requires forall i :: 0 <= i < |s| ==> '0' <= s[i] <= '9'
  {
    if |s| == 0 then 0
    else DecimalValue(s[..|s| - 1]) * 10 + (s[|s| - 1] as int - '0' as int)
  }

  /** Reading back the printed digits gives the number. */
  lemma {:induction false} DecimalRoundTrip(n: nat)
    ensures DecimalValue(NatToDecimal(n)) == n
    decreases n
  {
    if n >= 10 {
      var r := NatToDecimal(n);
      assert r[..|r| - 1] == NatToDecimal(n / 10);
      DecimalRoundTrip(n / 10);
    }
  }

  /** An int interpolated into a PHP string: decimal, with a leading '-' when negative. */
  function IntToDecimal(n: int): (r: string)
    ensures IsIntText(r)
    ensures r[0] == '-' <==> n < 0
  {
    if n < 0 then "-" + NatToDecimal(-n) else NatToDecimal(n)
  }

  predicate AllDigits(s: string)
  {
    forall i :: 0 <= i < |s| ==> '0' <= s[i] <= '9'
  }

  /** Text of an int: digits, optionally after one '-'. */
  predicate IsIntText(s: string)
  {
    && 0 < |s|
    && (if s[0] == '-' then 1 < |s| && AllDigits(s[1..]) else AllDigits(s))
  }

  /** The value of the text of an int. */
  function IntValue(s: string): int
    requires IsIntText(s)
  {
    if s[0] == '-' then -(DecimalValue(s[1..]) as int) else DecimalValue(s)
  }

  /** Reading back the printed int gives the int, negative ones included. */
  lemma IntRoundTrip(n: int)
    ensures IntValue(IntToDecimal(n)) == n
  {
    var d := NatToDecimal(if n < 0 then -n else n);
    DecimalRoundTrip(if n < 0 then -n else n);
    if n < 0 {
      assert IntToDecimal(n)[1..] == ("-" + d)[1..] == d;
    }
  }

  /** Two page ids never print the same, so ` value="ID">` names one page. */
  lemma IntToDecimalInjective(a: int, b: int)
    ensures IntToDecimal(a) == IntToDecimal(b) ==> a == b
  {
    IntRoundTrip(a);
    IntRoundTrip(b);
  }

  /** Two page ids never give the same key. */
  lemma KeyInjective(a: int, b: int)
    ensures Key(a) == Key(b) ==> a == b
  {
    if Key(a) == Key(b) {
      var da, db := IntToDecimal(a), IntToDecimal(b);
      assert da == Key(a)[8..|Key(a)| - 2];
      assert db == Key(b)[8..|Key(b)| - 2];
      IntToDecimalInjective(a, b);
    }
  }

  /** The literal middle of the pattern for page `id`: ` value="ID">`. */
  function Key(id: int): string
  {
    " value=\"" + IntToDecimal(id) + "\">"
  }

  /** The key never holds a line feed, so a match stays on one line. */
  lemma KeyOnOneLine(id: int)
    ensures NoNewline(Key(id))
  {
    var d := IntToDecimal(id);
    assert NoNewline(d);
    NoNewlineConcat(" value=\"", d);
    NoNewlineConcat(" value=\"" + d, "\">");
  }

  predicate NoNewline(s: string)
  {
    forall i :: 0 <= i < |s| ==> s[i] != '\n'
  }

  /** `key` occurs somewhere in `s`. */
  predicate Occurs(key: string, s: string)
  {
    exists i :: 0 <= i <= |s| && key <= s[i..]
  }

  /** `.*?</option>` matches the start of `v` with the group taking `v[..c]`. */
  predicate ClosesAt(v: string, c: nat)
  {
    c <= |v| && NoNewline(v[..c]) && Close <= v[c..]
  }

  /** `.*? value="ID">.*?</option>` matches the start of `u` with the first
      group taking `u[..k]` and the second the `c` characters after the key. */
  predicate Fits(u: string, key: string, k: nat, c: nat)
  {
    k <= |u| && NoNewline(u[..k]) && key <= u[k..] && ClosesAt(u[k + |key|..], c)
  }

  /** The lazy second group: the first `</option>` at or after `c` that no line
      feed precedes. */
  function LazyClose(v: string, c: nat): (r: Option<nat>)
    requires c <= |v| && NoNewline(v[..c])
    ensures r.Some? ==> c <= r.value && ClosesAt(v, r.value)
    ensures r.Some? ==> forall c' :: c <= c' < r.value ==> !ClosesAt(v, c')
    ensures r.None? ==> forall c' :: c <= c' ==> !ClosesAt(v, c')
    decreases |v| - c
  {
    if Close <= v[c..] then Some(c)
    else if c < |v| && v[c] != '\n' then
      assert v[..c + 1] == v[..c] + [v[c]];
      LazyClose(v, c + 1)
    else None
  }

  /** The lazy first group: the shortest `k` (at least the given one) after
      which the key and a closing tag follow, and for it the shortest second
      group. */
  function LazyFit(u: string, key: string, k: nat): (r: Option<(nat, nat)>)
    requires k <= |u| && NoNewline(u[..k])
    ensures r.Some? ==> k <= r.value.0 && Fits(u, key, r.value.0, r.value.1)
    ensures r.Some? ==> forall k', c' :: k <= k' < r.value.0 && 0 <= c' ==> !Fits(u, key, k', c')
    ensures r.Some? ==> forall c' :: 0 <= c' < r.value.1 ==> !Fits(u, key, r.value.0, c')
    ensures r.None? ==> forall k', c' :: k <= k' && 0 <= c' ==> !Fits(u, key, k', c')
    decreases |u| - k
  {
    var close := if key <= u[k..] then LazyClose(u[k + |key|..], 0) else None;
    if close.Some? then
      FirstFitAt(u, key, k, close.value);
      Some((k, close.value))
    else
      NoFitAt(u, key, k);
      if k < |u| && u[k] != '\n' then
        NoNewlineExtend(u, k);
        var r := LazyFit(u, key, k + 1);
        FitsAfter(u, key, k, r);
        r
      else
        NoFitPast(u, key, k);
        None
  }

  /** The shortest closing group behind the key gives the shortest fit for a
      first group of length `k`. */
  lemma FirstFitAt(u: string, key: string, k: nat, c: nat)
    requires k <= |u| && NoNewline(u[..k]) && key <= u[k..]
    requires LazyClose(u[k + |key|..], 0) == Some(c)
    ensures Fits(u, key, k, c)
    ensures forall c' :: 0 <= c' < c ==> !Fits(u, key, k, c')
  {
  }

  lemma NoNewlineExtend(u: string, k: nat)
    requires k < |u| && NoNewline(u[..k]) && u[k] != '\n'
    ensures NoNewline(u[..k + 1])
  {
    assert u[..k + 1] == u[..k] + [u[k]];
  }

  /** A search from `k + 1` that skipped no fit, when there is none at `k`,
      skipped none from `k` on either. */
  lemma FitsAfter(u: string, key: string, k: nat, r: Option<(nat, nat)>)
    requires forall c: nat :: !Fits(u, key, k, c)
    requires r.Some? ==> k + 1 <= r.value.0
    requires r.Some? ==> forall k', c' :: k + 1 <= k' < r.value.0 && 0 <= c' ==> !Fits(u, key, k', c')
    requires r.None? ==> forall k', c' :: k + 1 <= k' && 0 <= c' ==> !Fits(u, key, k', c')
    ensures r.Some? ==> forall k', c' :: k <= k' < r.value.0 && 0 <= c' ==> !Fits(u, key, k', c')
    ensures r.None? ==> forall k', c' :: k <= k' && 0 <= c' ==> !Fits(u, key, k', c')
  {
  }

  /** When the key or a closing tag is missing after `u[..k]`, no fit has a
      first group of length `k`. */
  lemma NoFitAt(u: string, key: string, k: nat)
    requires k <= |u|
    requires key <= u[k..] ==> LazyClose(u[k + |key|..], 0).None?
    ensures forall c: nat :: !Fits(u, key, k, c)
  {
  }

  /** The first group cannot run past the end of the text or a line feed. */
  lemma NoFitPast(u: string, key: string, k: nat)
    requires k == |u| || (k < |u| && u[k] == '\n')
    ensures forall k': nat, c: nat :: k < k' ==> !Fits(u, key, k', c)
  {
    forall k': nat | k < k' <= |u|
      ensures !NoNewline(u[..k'])
    {
      assert u[..k'][k] == '\n';
    }
  }

  /** The group lengths of the pattern's match at the start of `t`, if any. */
  function Groups(t: string, key: string): (r: Option<(nat, nat)>)
    ensures r.Some? ==> Open <= t && Fits(t[|Open|..], key, r.value.0, r.value.1)
    ensures r.Some? ==> forall k: nat, c: nat :: k < r.value.0 ==> !Fits(t[|Open|..], key, k, c)
    ensures r.Some? ==> forall c: nat :: c < r.value.1 ==> !Fits(t[|Open|..], key, r.value.0, c)
    ensures r.None? ==> !(Open <= t) || forall k: nat, c: nat :: !Fits(t[|Open|..], key, k, c)
  {
    if Open <= t then LazyFit(t[|Open|..], key, 0) else None
  }

  /** Length of the pattern's match at the start of `t`, if any. */
  function MatchLen(t: string, key: string): (r: Option<nat>)
    ensures r.Some? ==> |Open| + |key| + |Close| <= r.value <= |t|
  {
    match Groups(t, key)
    case None => None
    case Some((k, c)) =>
      FitLength(t[|Open|..], key, k, c);
      Some(|Open| + k + |key| + c + |Close|)
  }

  /** There is a match exactly when the text opens with `<option ` and both
      lazy groups fit behind it. */
  lemma MatchExists(t: string, key: string)
    ensures MatchLen(t, key).None? <==> !(Open <= t) || forall k: nat, c: nat :: !Fits(t[|Open|..], key, k, c)
  {
    var g := Groups(t, key);
    assert MatchLen(t, key).None? <==> g.None?;
  }

  /** An option span on one line: the text opens with `<option `, holds the
      key and ends with `</option>`. It may span several option elements of
      the same line. */
  predicate OptionSpanText(m: string, key: string)
  {
    && Open <= m
    && Occurs(key, m)
    && |Close| <= |m| && m[|m| - |Close|..] == Close
    && NoNewline(m)
  }

  /** A match of a key without a line feed is an option span on one line:
      it opens with `<option `, holds the key and ends with `</option>`, and
      may cover several option elements of that line. */
  lemma MatchShape(t: string, key: string, n: nat)
    requires NoNewline(key) && MatchLen(t, key) == Some(n)
    ensures OptionSpanText(t[..n], key)
  {
    var g := Groups(t, key);
    var k, c := g.value.0, g.value.1;
    assert n == |Open| + k + |key| + c + |Close|;
    var u := t[|Open|..];
    var v := u[k + |key|..];
    MatchFacts(t, key, k, c);
    ConcatShape(u[..k], key, v[..c]);
  }

  /** A match holds the key. */
  lemma MatchOccurs(t: string, key: string)
    requires MatchLen(t, key).Some?
    ensures Occurs(key, t)
  {
    var g := Groups(t, key);
    var k := g.value.0;
    assert t[|Open|..][k..] == t[|Open| + k..];
  }

  lemma OccursInSuffix(key: string, s: string, p: nat)
    requires p <= |s| && Occurs(key, s[p..])
    ensures Occurs(key, s)
  {
    var i :| 0 <= i <= |s[p..]| && key <= s[p..][i..];
    assert s[p..][i..] == s[p + i..];
  }

  /** Without the key in the text the pattern matches nowhere. */
  lemma NoKeyNoMatch(s: string, key: string)
    requires !Occurs(key, s)
    ensures forall p :: 0 <= p <= |s| ==> MatchLen(s[p..], key).None?
  {
    forall p | 0 <= p <= |s|
      ensures MatchLen(s[p..], key).None?
    {
      if MatchLen(s[p..], key).Some? {
        MatchOccurs(s[p..], key);
        OccursInSuffix(key, s, p);
        assert false;
      }
    }
  }

  lemma FitLength(u: string, key: string, k: nat, c: nat)
    requires Fits(u, key, k, c)
    ensures k + |key| + c + |Close| <= |u|
  {
  }

  /** The text a fit of both groups matches, piece by piece. */
  lemma MatchFacts(t: string, key: string, k: nat, c: nat)
    requires Open <= t && Fits(t[|Open|..], key, k, c)
    ensures |Open| + k + |key| + c + |Close| <= |t|
    ensures var u := t[|Open|..]; var v := u[k + |key|..];
      && NoNewline(u[..k]) && NoNewline(v[..c])
      && t[..|Open| + k + |key| + c + |Close|] == Open + u[..k] + key + v[..c] + Close
  {
  }

  lemma ConcatShape(g1: string, key: string, g2: string)
    requires NoNewline(g1) && NoNewline(key) && NoNewline(g2)
    ensures OptionSpanText(Open + g1 + key + g2 + Close, key)
  {
    var m := Open + g1 + key + g2 + Close;
    assert m[|Open| + |g1|..] == key + g2 + Close;
    assert m[|m| - |Close|..] == Close;
    NoNewlineConcat(Open, g1);
    NoNewlineConcat(Open + g1, key);
    NoNewlineConcat(Open + g1 + key, g2);
    NoNewlineConcat(Open + g1 + key + g2, Close);
  }

  lemma NoNewlineConcat(a: string, b: string)
    requires NoNewline(a) && NoNewline(b)
    ensures NoNewline(a + b)
  {
    forall i | 0 <= i < |a + b|
      ensures (a + b)[i] != '\n'
    {
      if i >= |a| {
        assert (a + b)[i] == b[i - |a|];
      }
    }
  }
}
