// What ReadText makes of every text, run by run: characters, entities and
// character references in any spelling, kept or with white space condensed.

module XmlRuns {
  import opened CStrings
  import N = Numerals
  import opened XmlText
  import R = XmlReferences

  const SPACES: seq<int> := [0x20, 0x09, 0x0A, 0x0B, 0x0C, 0x0D]

  predicate White(c: char) { c as int in SPACES }

  predicate AllSpaces(s: string) { forall k :: 0 <= k < |s| ==> White(s[k]) }

  datatype Run =
    | Letter(c: char)
    | Entity(k: nat)
    | Decimal(ds: seq<N.Digit>)
    | Hexadecimal(ds: seq<N.Digit>)
    | LoneAmpersand
  {
    predicate Valid() {
      match this
      case Letter(c) => c != '&'
      case Entity(k) => k < 5
      case Decimal(ds) => N.Numeral(ds, 10)
      case Hexadecimal(ds) => N.Numeral(ds, 16)
      case LoneAmpersand => true
    }

    /** An ampersand on its own starts nothing else. */
    predicate Before(rest: string) {
      Valid() &&
      (LoneAmpersand? ==> !("#" <= rest && |rest| > 1) && forall k :: 0 <= k < 5 ==> !(R.NAMES[k] <= "&" + rest))
    }

    function Then(rest: string): (s: string)
      requires Valid()
      ensures s != ""
    {
      match this
      case Letter(c) => [c] + rest
      case Entity(k) => R.NAMES[k] + rest
      case Decimal(ds) => "&#" + (N.Text(ds) + (";" + rest))
      case Hexadecimal(ds) => "&#x" + (N.Text(ds) + (";" + rest))
      case LoneAmpersand => "&" + rest
    }

    /** The characters it stands for; in the byte encoding a reference is cut to its low byte. */
    function Chars(): string
      requires Valid()
    {
      match this
      case Letter(c) => [c]
      case Entity(k) => [R.CHARACTERS[k] as char]
      case Decimal(ds) => [(N.Value(ds, 10) % 256) as char]
      case Hexadecimal(ds) => [(N.Value(ds, 16) % 256) as char]
      case LoneAmpersand => ""
    }

    predicate IsSpace() { Letter? && White(c) }
  }

  predicate Valid(rs: seq<Run>) { forall k :: 0 <= k < |rs| ==> rs[k].Valid() }

  function Then(rs: seq<Run>, rest: string): string
    requires Valid(rs)
  {
    if rs == [] then rest else rs[0].Then(Then(rs[1..], rest))
  }

  predicate Before(rs: seq<Run>, rest: string) {
    rs == [] || (Valid(rs) && rs[0].Before(Then(rs[1..], rest)) && Before(rs[1..], rest))
  }

  /** None of the characters is the given one. */
  predicate Without(rs: seq<Run>, c: char) { forall k :: 0 <= k < |rs| ==> rs[k] != Letter(c) }

  /** With white space kept. */
  function Kept(rs: seq<Run>): string
    requires Valid(rs)
  {
    if rs == [] then "" else rs[0].Chars() + Kept(rs[1..])
  }

  /** With every stretch of white space between two other runs one space, and none at the end. */
  function Condensed(rs: seq<Run>, pending: bool): string
    requires Valid(rs)
  {
    if rs == [] then ""
    else if rs[0].IsSpace() then Condensed(rs[1..], true)
    else (if pending then " " else "") + rs[0].Chars() + Condensed(rs[1..], false)
  }

  lemma WhiteSpace(c: char)
    ensures IsWhiteSpace(c) <==> White(c)
  {
    assert SPACES[0] == 0x20 && SPACES[1] == 9 && SPACES[2] == 10 && SPACES[3] == 11 && SPACES[4] == 12 && SPACES[5] == 13;
  }

  lemma RunReads(r: Run, rest: string)
    requires r.Before(rest)
    ensures r.Valid() && GetChar(r.Then(rest)) == Glyph(r.Chars(), Some(rest))
  {
    hide GetChar, N.Text, N.Value;
    match r
    case Letter(c) => R.OtherwiseReads(c, rest);
    case Entity(k) => R.EntityReads(k, rest);
    case Decimal(ds) => R.DecimalReads(ds, rest);
    case Hexadecimal(ds) => R.HexadecimalReads(ds, rest);
    case LoneAmpersand => R.OtherwiseReads('&', rest);
  }

  /** A run begins with its character or an ampersand. */
  lemma RunStarts(r: Run, rest: string)
    requires r.Valid()
    ensures r.Then(rest)[0] == if r.Letter? then r.c else '&'
    ensures r.Letter? ==> r.Then(rest)[1..] == rest
  {
    hide N.Text;
    if r.Entity? {
      assert R.NAMES[r.k][0] == '&';
    }
  }

  /** The loop that keeps white space, up to a quote. */
  lemma {:induction false} KeptReads(rs: seq<Run>, quote: char, tail: string)
    requires Before(rs, [quote] + tail) && Valid(rs) && Without(rs, quote) && quote != '&'
    ensures ReadKept(Some(Then(rs, [quote] + tail)), [quote]) == (Kept(rs), Some([quote] + tail))
  {
    hide GetChar, Run.Then, Run.Before, Run.Chars;
    if rs == [] {
      assert [quote] <= [quote] + tail;
    } else {
      var rest := Then(rs[1..], [quote] + tail);
      RunReads(rs[0], rest);
      RunStarts(rs[0], rest);
      assert rs[0] != Letter(quote);
      KeptReads(rs[1..], quote, tail);
    }
  }

  /** The loop that condenses white space, up to a tag. */
  lemma {:induction false} CondensedReads(rs: seq<Run>, pending: bool, tail: string)
    requires Before(rs, "<" + tail) && Valid(rs) && Without(rs, '<')
    ensures ReadCondensed(Some(Then(rs, "<" + tail)), "<", pending) == (Condensed(rs, pending), Some("<" + tail))
  {
    hide GetChar, Run.Then, Run.Before, Run.Chars, IsWhiteSpace, White;
    if rs == [] {
      assert "<" <= "<" + tail;
    } else {
      var rest := Then(rs[1..], "<" + tail);
      RunReads(rs[0], rest);
      RunStarts(rs[0], rest);
      WhiteSpace(rs[0].Then(rest)[0]);
      assert rs[0] != Letter('<');
      AmpersandNotWhite();
      CondensedReads(rs[1..], rs[0].IsSpace(), tail);
    }
  }

  lemma AmpersandNotWhite()
    ensures !White('&') && !White('<')
  {
  }
}
