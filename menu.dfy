/** The selection check of the main menu: the user's answer picks a
    configuration by its 1-based number, `0` leaves, anything else is
    rejected. */
module Menu {
  import opened PyText
  import opened Wrappers
  import opened Discovery

  /** What one answer to the menu prompt does. */
  datatype Choice = Exit | Invalid | Select(index: nat)

  /** The answer is stripped; exactly `0` exits; otherwise it must be all
      digits and its value between 1 and the number of configurations. */
  function ParseChoice(raw: string, count: nat): (c: Choice)
    ensures c.Select? ==> c.index < count
  {
    var choice := Strip(raw);
    if choice == "0" then Exit
    else if !AllDigits(choice) || !(0 < DecimalValue(choice) <= count) then Invalid
    else Select(DecimalValue(choice) - 1)
  }

  /** The configuration an answer starts, if any. */
  function Selected(configs: seq<ConfigEntry>, raw: string): (r: Option<ConfigEntry>)
    ensures r.Some? ==> r.value in configs
  {
    match ParseChoice(raw, |configs|)
    case Select(i) => Some(configs[i])
    case _ => None
  }

  /** Both directions: an answer selects configuration `i` (counted from 0)
      exactly when, stripped, it is non-empty, all digits, and its value is
      `i + 1` with `i` below the number of configurations. */
  lemma ParseChoiceSelectIff(raw: string, count: nat, i: nat)
    ensures ParseChoice(raw, count) == Select(i) <==>
      AllDigits(Strip(raw)) && DecimalValue(Strip(raw)) == i + 1 && i < count
  {
    assert DecimalValue("0") == 0 by {
      assert "0"[..0] == "";
    }
  }

  /** Both directions: only the answer `0` (with blanks around it) leaves the
      menu; `00` or ` 0 0` do not. */
  lemma ParseChoiceExitIff(raw: string, count: nat)
    ensures ParseChoice(raw, count) == Exit <==> Strip(raw) == "0"
  {
  }

  /** The number the menu prints in front of a configuration selects it, with
      or without blanks around it. */
  lemma LabelSelects(k: nat, count: nat, before: string, after: string)
    requires 1 <= k <= count
    requires forall j :: 0 <= j < |before| ==> IsSpace(before[j])
    requires forall j :: 0 <= j < |after| ==> IsSpace(after[j])
    ensures ParseChoice(before + DecimalText(k) + after, count) == Select(k - 1)
  {
    var text := DecimalText(k);
    StripAround(before, text, after);
    DecimalRoundTrip(k);
    assert text != "0" by {
      assert text[0] != '0';
    }
  }

  /** Blanks around a word whose ends are not blank are stripped off. */
  lemma {:induction false} StripAround(before: string, w: string, after: string)
    requires w != [] && !IsSpace(w[0]) && !IsSpace(w[|w| - 1])
    requires forall j :: 0 <= j < |before| ==> IsSpace(before[j])
    requires forall j :: 0 <= j < |after| ==> IsSpace(after[j])
    ensures Strip(before + w + after) == w
  {
    var s := before + w + after;
    assert s == before + (w + after);
    LStripBlanks(before, w + after);
    RStripBlanks(w, after);
    assert Strip(s) == RStrip(LStrip(s));
  }

  lemma {:induction false} LStripBlanks(blanks: string, rest: string)
    requires forall j :: 0 <= j < |blanks| ==> IsSpace(blanks[j])
    requires rest != [] && !IsSpace(rest[0])
    ensures LStrip(blanks + rest) == rest
  {
    if blanks != [] {
      assert (blanks + rest)[1..] == blanks[1..] + rest;
      LStripBlanks(blanks[1..], rest);
    } else {
      assert blanks + rest == rest;
    }
  }

  lemma {:induction false} RStripBlanks(w: string, blanks: string)
    requires forall j :: 0 <= j < |blanks| ==> IsSpace(blanks[j])
    requires w != [] && !IsSpace(w[|w| - 1])
    ensures RStrip(w + blanks) == w
    decreases |blanks|
  {
    if blanks != [] {
      var n := |blanks| - 1;
      assert (w + blanks)[..|w + blanks| - 1] == w + blanks[..n];
      RStripBlanks(w, blanks[..n]);
    } else {
      assert w + blanks == w;
    }
  }
}
