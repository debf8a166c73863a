/** Recognising a station's state from the free-text location field, which
    looks like "Denver Airport, OH" or "Denver Airport, OH US".
 */
module Location {
  import opened PyStrings

  /** The accepted codes, as written in the script: 53 entries, which include
      the District of Columbia ("DC"), Puerto Rico ("PR") and the US Virgin
      Islands ("VI") although the comment above the list speaks of states only. */
  const StatesToConsider: seq<string> :=
    [ "AK", "AL", "AR", "AZ", "CA", "CO", "CT", "DC", "DE", "FL" ] +
    [ "GA", "HI", "IA", "ID", "IL", "IN", "KS", "KY", "LA", "MA" ] +
    [ "MD", "ME", "MI", "MN", "MO", "MS", "MT", "NC", "ND", "NE" ] +
    [ "NH", "NJ", "NM", "NV", "NY", "OH", "OK", "OR", "PA", "PR" ] +
    [ "RI", "SC", "SD", "TN", "TX", "UT", "VA", "VI", "VT", "WA" ] +
    [ "WI", "WV", "WY" ]

  /** What one location field says about the state. */
  datatype Candidate =
    /** The field is empty: the row is skipped. */
    | Blank
    /** The field has no comma: the row is skipped. */
    | NoComma
    /** The text found after the first comma; whether it is accepted is
        decided against `StatesToConsider` by the caller. */
    | Code(code: string)

  /** The candidate code of a location: taken from the piece between its
      first and second comma by `CodeOf`. */
  function ParseLocation(location: string): (c: Candidate)
    ensures c.Blank? <==> location == ""
    ensures c.NoComma? <==> location != "" && ',' !in location
    ensures c.Code? ==> ',' !in c.code && ' ' !in c.code
    ensures c.Code? ==> c.code == [] || (!IsSpace(c.code[0]) && !IsSpace(c.code[|c.code| - 1]))
  {
    if location == "" then Blank
    else
      var parts := Split(location, ',');
      if |parts| < 2 then NoComma
      else
        CodeOfChars(parts[1]);
        Code(CodeOf(parts[1]))
  }

  /** From the piece after the first comma: drop exactly one leading
      character (whatever it is), strip, keep what precedes the first space,
      strip again. */
  function CodeOf(piece: string): (code: string)
    ensures ' ' !in code
    ensures code == [] || (!IsSpace(code[0]) && !IsSpace(code[|code| - 1]))
  {
    var rest := if |piece| == 0 then piece else piece[1..];
    var token := Split(Strip(rest), ' ')[0];
    assert ' ' !in token;
    Strip(token)
  }

  /** The code is made of characters of the piece it was cut from. */
  lemma CodeOfChars(piece: string)
    ensures forall ch :: ch in CodeOf(piece) ==> ch in piece
  {
    var start := if |piece| == 0 then 0 else 1;
    var rest := piece[start..];
    SliceChars(piece, start, |piece|);
    var stripped := Strip(rest);
    StripChars(rest);
    var token := Split(stripped, ' ')[0];
    assert token == stripped[0..|token|];
    SliceChars(stripped, 0, |token|);
    StripChars(token);
  }

  /** The piece after the comma begins with the dropped character and the
      code, and whatever of the tail belongs to it is empty or starts with a space. */
  lemma PieceAfterComma(name: string, d: char, code: string, tail: string) returns (t1: string)
    requires ',' !in name && d != ',' && ',' !in code
    requires tail == [] || tail[0] == ' ' || tail[0] == ','
    ensures |Split(name + [','] + [d] + code + tail, ',')| >= 2
    ensures Split(name + [','] + [d] + code + tail, ',')[1] == [d] + code + t1
    ensures t1 == [] || t1[0] == ' '
  {
    var head := [d] + code;
    var rest := head + tail;
    assert name + [','] + [d] + code + tail == name + [','] + rest;
    SplitAfterFirst(name, rest, ',');
    assert ',' !in head;
    SplitHead(head, tail, ',');
    t1 := Split(tail, ',')[0];
    assert t1 <= tail && ',' !in t1;
    assert t1 == [] || t1[0] == tail[0];
  }

  /** Once the piece is known to be one character, the code, and a tail that
      is empty or starts with a space, `CodeOf` yields exactly the code. */
  lemma CodeOfPiece(d: char, code: string, t1: string)
    requires |code| > 0 && forall i :: 0 <= i < |code| ==> !IsSpace(code[i])
    requires t1 == [] || t1[0] == ' '
    ensures CodeOf([d] + code + t1) == code
  {
    var piece := [d] + code + t1;
    assert piece[1..] == code + t1;
    StripAppend(code, t1);
    var u := RStrip(t1);
    assert u == [] || u[0] == ' ';
    SplitHead(code, u, ' ');
    SplitHeadEmpty(u, ' ');
    assert code + [] == code;
    StripUnchanged(code);
  }

  /** The general shape: for a location `name,dCODE...` where `name` has no
      comma, `d` is any single non-comma character and `CODE` is a non-empty
      run without whitespace or commas, the code is `CODE` whenever what
      follows it is nothing, a space or a comma. */
  lemma CodeAfterComma(name: string, d: char, code: string, tail: string)
    requires ',' !in name && d != ','
    requires |code| > 0 && forall i :: 0 <= i < |code| ==> !IsSpace(code[i]) && code[i] != ','
    requires tail == [] || tail[0] == ' ' || tail[0] == ','
    ensures ParseLocation(name + [','] + [d] + code + tail) == Code(code)
  {
    assert ',' !in code;
    var t1 := PieceAfterComma(name, d, code, tail);
    CodeOfPiece(d, code, t1);
  }

  /** The first shape the script was written for. */
  lemma DenverExample()
    ensures ParseLocation("Denver Airport, OH") == Code("OH")
  {
    assert "Denver Airport, OH" == "Denver Airport" + [','] + [' '] + "OH" + "";
    CodeAfterComma("Denver Airport", ' ', "OH", "");
  }

  /** The second shape: a country code after the state is cut off at the space. */
  lemma DenverCountryExample()
    ensures ParseLocation("Denver Airport, OH US") == Code("OH")
  {
    assert "Denver Airport, OH US" == "Denver Airport" + [','] + [' '] + "OH" + " US";
    CodeAfterComma("Denver Airport", ' ', "OH", " US");
  }

  /** The character after the comma is dropped even when it is not a space:
      a location written without that space loses the first letter of its code. */
  lemma NoSpaceAfterCommaExample()
    ensures ParseLocation("Denver Airport,OH") == Code("H")
  {
    assert "Denver Airport,OH" == "Denver Airport" + [','] + ['O'] + "H" + "";
    CodeAfterComma("Denver Airport", 'O', "H", "");
  }

  /** An empty location leaves the state unresolved. */
  lemma BlankExample()
    ensures ParseLocation("") == Blank
  {
  }

  /** A location without a comma leaves the state unresolved. */
  lemma NoCommaExample()
    ensures ParseLocation("SomePlace") == NoComma
  {
    assert "SomePlace" == ['S', 'o', 'm', 'e', 'P', 'l', 'a', 'c', 'e'];
    assert ',' !in "SomePlace";
  }

  /** The list as written has 53 codes. */
  lemma StatesToConsiderSize()
    ensures |StatesToConsider| == 53
  {
  }

  /** The District of Columbia is accepted. */
  lemma DistrictAccepted()
    ensures "DC" in StatesToConsider
  {
    assert StatesToConsider[7] == "DC";
  }

  /** Puerto Rico is accepted. */
  lemma PuertoRicoAccepted()
    ensures "PR" in StatesToConsider
  {
    assert StatesToConsider[39] == "PR";
  }

  /** The US Virgin Islands are accepted. */
  lemma VirginIslandsAccepted()
    ensures "VI" in StatesToConsider
  {
    assert StatesToConsider[47] == "VI";
  }

  /** Guam is not accepted. */
  lemma GuamExcluded()
    ensures "GU" !in StatesToConsider
  {
  }

  /** The one-letter code of a location written without a space after the
      comma is never accepted. */
  lemma OneLetterCodeExcluded()
    ensures "H" !in StatesToConsider
  {
  }
}
