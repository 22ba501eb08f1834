/**
 * Worked examples of the excluder on small inputs, proved as lemmas.
 */
module Scenarios {
  import opened Wrappers
  import opened OptionPattern
  import opened GlobalReplace
  import opened QueryPolicy
  import opened ExclusionList
  import opened OfflinePageExcluder

  /** The key the pattern looks for when the offline page has id 42. */
  lemma KeyOf42()
    ensures Key(42) == " value=\"42\">"
  {
    assert NatToDecimal(4) == "4";
    assert NatToDecimal(42) == NatToDecimal(4) + [DigitChar(2)];
  }

  /** The first match found by the lazy groups, given the earliest fit and nothing shorter. */
  lemma MatchIs(t: string, key: string, k: nat, c: nat)
    requires Open <= t && Fits(t[|Open|..], key, k, c)
    requires forall k': nat, c': nat :: k' < k ==> !Fits(t[|Open|..], key, k', c')
    requires forall c': nat :: c' < c ==> !Fits(t[|Open|..], key, k, c')
    ensures MatchLen(t, key) == Some(|Open| + k + |key| + c + |Close|)
  {
    var g := Groups(t, key);
    assert g.Some?;
    assert g.value.0 == k;
    assert g.value.1 == c;
  }

  /*
   * The dropdown below reads, once concatenated,
   *   <option value="1">A</option><option value="42">Offline</option><option value="3">C</option>
   * and is split where the pattern's pieces fall: Open, the first lazy group (Stretch),
   * the key, the second lazy group (Label), Close, and the untouched rest (Third).
   * Only one space separates `<option` from `value` in each option, so the first group
   * cannot start inside the second option: the one match begins at the first option
   * and swallows both of the first two.
   */
  const Key42: string := " value=\"42\">"
  const Stretch: string := "value=\"1\">A</option><option"
  const Label: string := "Offline"
  const Third: string := "<option value=\"3\">C</option>"

  /** The option text after `<option `, as the first lazy group sees it. */
  ghost predicate AfterOpen(u: string)
  {
    u == Stretch + Key42 + Label + Close + Third
  }

  /** After the label comes `</option>`, with no line break in between. */
  lemma ClosesAfterLabel(v: string)
    requires v == Label + Close + Third
    ensures ClosesAt(v, |Label|)
  {
    assert '\n' !in Label;
    assert v[..|Label|] == Label;
    assert v[|Label|..] == Close + Third;
  }

  /** The earliest place the key fits: the end of the stretch, closing after the label. */
  lemma FitsAtStretch(u: string)
    requires AfterOpen(u)
    ensures Fits(u, Key42, |Stretch|, |Label|)
  {
    assert '\n' !in Stretch;
    assert u[..|Stretch|] == Stretch;
    assert u[|Stretch|..] == Key42 + Label + Close + Third;
    ClosesAfterLabel(u[|Stretch| + |Key42|..]);
  }

  /** The key cannot fit inside the stretch: the stretch has no space. */
  lemma NoFitInStretch(u: string, k: nat, c: nat)
    requires AfterOpen(u) && k < |Stretch|
    ensures !Fits(u, Key42, k, c)
  {
    assert ' ' !in Stretch;
    assert u[k] == Stretch[k];
    assert Key42[0] == ' ';
  }

  /** No `</option>` starts inside the label: the label has no `<`. */
  lemma NoCloseInLabel(u: string, c: nat)
    requires AfterOpen(u) && c < |Label|
    ensures !Fits(u, Key42, |Stretch|, c)
  {
    assert '<' !in Label;
    var v := u[|Stretch| + |Key42|..];
    assert v[c] == Label[c];
    assert Close[0] == '<';
  }

  /** The text of the first option up to `<option `, and after it. */
  lemma SplitOpen(t: string)
    requires t == Open + Stretch + Key42 + Label + Close + Third
    ensures Open <= t && AfterOpen(t[|Open|..])
  {
    assert t[..|Open|] == Open;
    assert t[|Open|..] == Stretch + Key42 + Label + Close + Third;
  }

  /** The earliest fit is the one at the stretch's end, with nothing shorter before it. */
  lemma EarliestFit(u: string)
    requires AfterOpen(u)
    ensures Fits(u, Key42, |Stretch|, |Label|)
    ensures forall k: nat, c: nat :: k < |Stretch| ==> !Fits(u, Key42, k, c)
    ensures forall c: nat :: c < |Label| ==> !Fits(u, Key42, |Stretch|, c)
  {
    FitsAtStretch(u);
    forall k: nat, c: nat | k < |Stretch|
      ensures !Fits(u, Key42, k, c)
    {
      NoFitInStretch(u, k, c);
    }
    forall c: nat | c < |Label|
      ensures !Fits(u, Key42, |Stretch|, c)
    {
      NoCloseInLabel(u, c);
    }
  }

  /** The match starting at the first option ends after the option for page 42. */
  lemma FirstMatch(t: string)
    requires t == Open + Stretch + Key42 + Label + Close + Third
    ensures MatchLen(t, Key42) == Some(|Open| + |Stretch| + |Key42| + |Label| + |Close|)
  {
    SplitOpen(t);
    EarliestFit(t[|Open|..]);
    MatchIs(t, Key42, |Stretch|, |Label|);
  }

  /** The third option does not mention page 42. */
  lemma NoKeyInThird()
    ensures !Occurs(Key42, Third)
  {
    assert Key42[0] == ' ' && Key42[8] == '4';
    assert forall i :: 0 <= i < |Third| && i != 7 ==> Third[i] != ' ';
    assert Third[15] == '3';
    forall i | 0 <= i <= |Third|
      ensures !(Key42 <= Third[i..])
    {
      if i + |Key42| <= |Third| {
        assert Third[i..][0] == Third[i];
        if i == 7 {
          assert Third[i..][8] == Third[15];
        }
      }
    }
  }

  /** The match at position 0 covers the first two options. */
  lemma JumpFirst(t: string, n: nat)
    requires t == Open + Stretch + Key42 + Label + Close + Third
    requires n == |Open + Stretch + Key42 + Label + Close|
    ensures OptionMatcher(42)(t) == Some(n)
  {
    KeyOf42();
    FirstMatch(t);
  }

  /** Nothing after the first match matches. */
  lemma RestUnmatched(t: string, n: nat)
    requires t == Open + Stretch + Key42 + Label + Close + Third
    requires n == |Open + Stretch + Key42 + Label + Close|
    ensures n <= |t|
    ensures forall p :: n <= p < |t| ==> OptionMatcher(42)(t[p..]).None?
  {
    KeyOf42();
    NoKeyInThird();
    NoKeyNoMatch(Third, Key42);
    assert t[n..] == Third;
    forall p | n <= p < |t|
      ensures OptionMatcher(42)(t[p..]).None?
    {
      assert t[p..] == Third[p - n..];
    }
  }

  /** The filter turns the three-option dropdown into the third option alone. */
  lemma DropdownScenario(host: Host)
    requires host.offlineId == 42 && host.optionName != "page_id"
    ensures ExcludeFromPageDropdown(Open + Stretch + Key42 + Label + Close + Third, Some("page_id"), host) == Third
  {
    var t := Open + Stretch + Key42 + Label + Close + Third;
    var n := |Open + Stretch + Key42 + Label + Close|;
    var m := OptionMatcher(42);
    JumpFirst(t, n);
    assert t[0..] == t;
    assert DeleteFrom(t, m, 0) == DeleteFrom(t, m, n);
    RestUnmatched(t, n);
    DeleteFromWithoutMatch(t, m, n);
    assert t[n..] == Third;
  }

  /** A search on the front end gets the offline page appended to its exclusions. */
  lemma SearchScenario(host: Host)
    requires host.offlineId == 42
    ensures var q := Query(true, false, false, false, 0, [5]);
            ExcludeFromQuery(q, host).postNotIn == [5, 42]
  {
    UniqueOfDistinct([5]);
  }

  /** A visit to the offline page itself leaves the query alone and asks for no-robots. */
  lemma OfflineVisitScenario(host: Host)
    requires host.offlineId == 42 && !host.customizerActive
    ensures var q := Query(false, true, true, false, 42, [7]);
            ExcludeFromQuery(q, host) == q && ShowNoRobotsOnOfflinePage(q, host)
  {
  }
}
