/**
 * The entity-id recogniser of the `hears` handler: a message that is an
 * entity id, with or without a leading slash, in either case.
 */
module HearsEntity {
  import opened Wrappers
  import opened Text

  /** `[qpl]` under the `i` flag. */
  predicate IsKindLetter(c: char) {
    c == 'q' || c == 'p' || c == 'l' || c == 'Q' || c == 'P' || c == 'L'
  }

  /** The captured group `[qpl][1-9]\d*`. */
  predicate IsIdText(s: string) {
    && |s| >= 2
    && IsKindLetter(s[0])
    && '1' <= s[1] <= '9'
    && forall i :: 2 <= i < |s| ==> IsDigit(s[i])
  }

  /**
   * `/^\/?([qpl][1-9]\d*)$/i` on the message and `ctx.match[1].toUpperCase()`:
   * the entity id the message names, or None when the pattern does not match.
   */
  function MatchEntityCommand(text: string): (r: Option<string>)
    ensures r.Some? ==>
      && |r.value| >= 2
      && (r.value[0] == 'Q' || r.value[0] == 'P' || r.value[0] == 'L')
      && '1' <= r.value[1] <= '9'
      && (forall i :: 2 <= i < |r.value| ==> IsDigit(r.value[i]))
    ensures r.Some? ==>
      || (|text| == |r.value| && ToUpper(text) == r.value)
      || (|text| == |r.value| + 1 && text[0] == '/' && ToUpper(text[1..]) == r.value)
  {
    var body := if |text| > 0 && text[0] == '/' then text[1..] else text;
    if IsIdText(body) then Some(ToUpper(body)) else None
  }

  /**
   * Every message of the form: an optional slash, a kind letter, a digit
   * 1-9 and any further digits, is accepted, and names the upper-cased id.
   */
  lemma AcceptsIdForm(slash: bool, letter: char, lead: char, digits: string)
    requires IsKindLetter(letter) && '1' <= lead <= '9'
    requires forall i :: 0 <= i < |digits| ==> IsDigit(digits[i])
    ensures MatchEntityCommand((if slash then "/" else "") + [letter, lead] + digits)
      == Some([UpperChar(letter), lead] + digits)
  {
    var id := [letter, lead] + digits;
    assert (if slash then "/" else "") + [letter, lead] + digits == (if slash then "/" else "") + id;
    assert IsIdText(id) by {
      forall i | 2 <= i < |id| ensures IsDigit(id[i]) {
        assert id[i] == digits[i - 2];
      }
    }
    AcceptsId(slash, id);
    UpperId(letter, lead, digits);
  }

  lemma AcceptsId(slash: bool, id: string)
    requires IsIdText(id)
    ensures MatchEntityCommand((if slash then "/" else "") + id) == Some(ToUpper(id))
  {
    var text := (if slash then "/" else "") + id;
    if slash {
      assert text[0] == '/' && text[1..] == id;
    } else {
      assert text == id && text[0] != '/';
    }
  }

  lemma UpperId(letter: char, lead: char, digits: string)
    requires '1' <= lead <= '9'
    requires forall i :: 0 <= i < |digits| ==> IsDigit(digits[i])
    ensures ToUpper([letter, lead] + digits) == [UpperChar(letter), lead] + digits
  {
    var id := [letter, lead] + digits;
    var up := ToUpper(id);
    var expected := [UpperChar(letter), lead] + digits;
    forall i | 0 <= i < |up| ensures up[i] == expected[i] {
      if i >= 2 {
        assert id[i] == digits[i - 2] == expected[i];
      }
    }
    assert up == expected;
  }

  /** A leading zero, a second slash, or anything before or after the id is refused. */
  lemma RejectsOtherForms(id: string, c: char)
    requires IsIdText(id)
    ensures MatchEntityCommand([id[0], '0'] + id[1..]).None?
    ensures MatchEntityCommand("//" + id).None?
    ensures !IsDigit(c) ==> MatchEntityCommand(id + [c]).None?
    ensures c != '/' ==> MatchEntityCommand([c] + id).None?
  {
    var withZero := [id[0], '0'] + id[1..];
    assert withZero[1] == '0';
    assert ("//" + id)[1..] == "/" + id;
    var tail := id + [c];
    assert tail[|tail| - 1] == c;
    var head := [c] + id;
    assert head[0] == c;
    if c != '/' && IsKindLetter(c) {
      assert head[1] == id[0];
    }
  }

  /** "/q42" names Q42. */
  lemma ExampleAccepted()
    ensures MatchEntityCommand("/q42") == Some("Q42")
  {
    AcceptsIdForm(true, 'q', '4', "2");
    assert "/" + ['q', '4'] + "2" == "/q42";
    assert [UpperChar('q'), '4'] + "2" == "Q42";
  }

  /** "Q0", "Q042", "Q42x", "//Q42" and " Q42" are refused. */
  lemma ExamplesRefused()
    ensures MatchEntityCommand("Q0").None?
    ensures MatchEntityCommand("Q042").None?
    ensures MatchEntityCommand("Q42x").None?
    ensures MatchEntityCommand("//Q42").None?
    ensures MatchEntityCommand(" Q42").None?
  {
    var q42 := "Q42";
    assert IsIdText(q42);
    RejectsOtherForms(q42, 'x');
    assert q42 + ['x'] == "Q42x";
  }
}
