/** The text form of a branch rule's condition, `OptionId == '<guid>'`:
    how the rule editor writes it and how both services read it back. */
module Conditions {
  import opened Wrappers
  import Text
  import Guids

  /** The characters stripped from around the Guid after the outer trim. */
  function QuoteChars(): set<char> { {'\'', '\"', ' '} }

  /** The condition stored for a rule keyed on `optionId`. */
  function BuildCondition(optionId: Guids.Guid): string {
    "OptionId == '" + Guids.Format(optionId) + "'"
  }

  /** ExtractOptionIdFromCondition: exactly two parts around "==", the right
      one trimmed of white space and then of quotes and spaces, parsed as a
      Guid; anything else yields Guid.Empty. */
  function ExtractOptionId(expr: string): (id: Guids.Guid)
    ensures |Text.Split(expr, "==")| != 2 ==> id == Guids.Empty()
  {
    if |Text.Split(expr, "==")| == 2 then
      Guids.Parse(Text.Trim(Text.Trim(Text.Split(expr, "==")[1], Text.WhiteSpace), QuoteChars())).GetOr(Guids.Empty())
    else Guids.Empty()
  }

  /** Reading back a condition the rule editor wrote gives its option. */
  lemma ExtractBuilt(optionId: Guids.Guid)
    ensures ExtractOptionId(BuildCondition(optionId)) == optionId
  {
    var f := Guids.Format(optionId);
    BuiltSplits(optionId);
    QuotedTrims(optionId);
    Guids.ParseFormat(optionId);
    assert Text.Trim(Text.Trim(Text.Split(BuildCondition(optionId), "==")[1], Text.WhiteSpace), QuoteChars()) == f;
  }

  /** The written condition splits on "==" into the name and the quoted Guid. */
  lemma BuiltSplits(optionId: Guids.Guid)
    ensures Text.Split(BuildCondition(optionId), "==") == ["OptionId ", " '" + Guids.Format(optionId) + "'"]
  {
    var f := Guids.Format(optionId);
    var right := " '" + f + "'";
    assert '=' !in f by {
      if '=' in f { Guids.FormatChars(optionId, '='); }
    }
    assert BuildCondition(optionId) == "OptionId " + "==" + right;
    Text.SplitOnce("OptionId ", right, "==");
  }

  /** The two trims strip the blank and the quotes, leaving the Guid text. */
  lemma QuotedTrims(optionId: Guids.Guid)
    ensures Text.Trim(Text.Trim(" '" + Guids.Format(optionId) + "'", Text.WhiteSpace), QuoteChars())
         == Guids.Format(optionId)
  {
    var f := Guids.Format(optionId);
    assert " " + ("'" + f + "'") + "" == " '" + f + "'";
    Text.TrimWrapped(" ", "'" + f + "'", "", Text.WhiteSpace);
    Guids.FormatEnds(optionId);
    Guids.HexCharValue(optionId[0]);
    Guids.HexCharValue(optionId[31]);
    Text.TrimWrapped("'", f, "'", QuoteChars());
  }

  /** A condition without an "==" never names an option. */
  lemma NoSeparatorNoOption(expr: string)
    requires '=' !in expr
    ensures ExtractOptionId(expr) == Guids.Empty()
  {
    Text.SplitWithout(expr, "==");
  }
}
