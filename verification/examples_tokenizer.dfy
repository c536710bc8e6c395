/** Worked instances of the tokenizer's rules, each derived from the general
    lemmas rather than by evaluation. */
module TokenizerExamples {
  import opened Strings
  import opened Simas

  /** Helper for the examples below: `SimasRoundTrip` restated with the text as
      a parameter, so that an example names its literal text only once. */
  lemma ReadsBack(program: seq<Record>, text: string)
    requires WellFormed(program) && JsonToSimas(program) == text
    ensures SimasToJson(text) == program
  {
    SimasRoundTrip(program);
  }

  /** One trailing `;` is dropped. */
  lemma JumpLine()
    ensures SimasToJson("JMP 10;") == [["JMP", "10"]]
  {
    var p: seq<Record> := [["JMP", "10"]];
    assert FormatRecord(p[0]) == "JMP 10;";
    assert FormatLines(p) == ["JMP 10;"];
    assert IsToken("JMP") && IsToken("10");
    ReadsBack(p, "JMP 10;");
  }

  /** Only one trailing `;` is dropped; the second stays in the last token. */
  lemma DoubleSemicolon()
    ensures SimasToJson("JMP 10;;") == [["JMP", "10;"]]
  {
    var p: seq<Record> := [["JMP", "10;"]];
    assert FormatRecord(p[0]) == "JMP 10;;";
    assert FormatLines(p) == ["JMP 10;;"];
    assert IsToken("JMP") && IsToken("10;");
    ReadsBack(p, "JMP 10;;");
  }

  /** A line holding only `;` gives the empty record. */
  lemma BareSemicolon()
    ensures SimasToJson(";") == [[]]
  {
    var p: seq<Record> := [[]];
    assert FormatRecord(p[0]) == ";";
    assert FormatLines(p) == [";"];
    ReadsBack(p, ";");
  }

  lemma NoLines()
    ensures SimasToJson("") == []
  {
  }

  /** A line of spaces gives no record. */
  lemma SpacesOnly(b: string)
    requires forall i :: 0 <= i < |b| ==> b[i] == SPACE
    ensures SimasToJson(b) == []
  {
    assert |Strip(b)| == 0;
    SimasToJsonOneLine(b);
  }

  lemma BlankLine()
    ensures SimasToJson("  ") == []
  {
    SpacesOnly("  ");
  }

  lemma MoveLine()
    ensures SimasToJson("MOV A B;") == [["MOV", "A", "B"]]
  {
    var p: seq<Record> := [["MOV", "A", "B"]];
    assert FormatRecord(p[0]) == "MOV A B;";
    assert FormatLines(p) == ["MOV A B;"];
    assert IsToken("MOV") && IsToken("A") && IsToken("B");
    ReadsBack(p, "MOV A B;");
  }

  lemma AddLine()
    ensures SimasToJson("ADD A;") == [["ADD", "A"]]
  {
    var p: seq<Record> := [["ADD", "A"]];
    assert FormatRecord(p[0]) == "ADD A;";
    assert FormatLines(p) == ["ADD A;"];
    assert IsToken("ADD") && IsToken("A");
    ReadsBack(p, "ADD A;");
  }

  /** Helper for the examples below: `SimasToJsonAppend` restated with the
      records of both halves as parameters. */
  lemma TwoParts(a: string, c: char, b: string, pa: seq<Record>, pb: seq<Record>)
    requires IsLineBreak(c) && SimasToJson(a) == pa && SimasToJson(b) == pb
    ensures SimasToJson(a + [c] + b) == pa + pb
  {
    SimasToJsonAppend(a, c, b);
  }

  /** How the example texts break into pieces at their line breaks. */
  lemma Pieces()
    ensures [] + [NEWLINE] + "ADD A;" == "\nADD A;"
    ensures "MOV A B;" + [CARRIAGE_RETURN] + "\nADD A;" == "MOV A B;\r\nADD A;"
    ensures "  " + [NEWLINE] + "ADD A;" == "  \nADD A;"
    ensures [] + [NEWLINE] + "  \nADD A;" == "\n  \nADD A;"
    ensures "MOV A B;" + [NEWLINE] + "\n  \nADD A;" == "MOV A B;\n\n  \nADD A;"
  {
  }

  /** Blank and whitespace-only lines give no record; the others keep their
      order. */
  lemma BlankLinesSkipped()
    ensures SimasToJson("MOV A B;\n\n  \nADD A;") == [["MOV", "A", "B"], ["ADD", "A"]]
  {
    Pieces();
    BlankLine();
    AddLine();
    TwoParts("  ", NEWLINE, "ADD A;", [], [["ADD", "A"]]);
    NoLines();
    TwoParts([], NEWLINE, "  \nADD A;", [], [["ADD", "A"]]);
    MoveLine();
    TwoParts("MOV A B;", NEWLINE, "\n  \nADD A;", [["MOV", "A", "B"]], [["ADD", "A"]]);
  }

  /** An empty first line gives no record. */
  lemma LeadingBreak()
    ensures SimasToJson("\nADD A;") == [["ADD", "A"]]
  {
    Pieces();
    NoLines();
    AddLine();
    TwoParts([], NEWLINE, "ADD A;", [], [["ADD", "A"]]);
  }

  /** A `\r\n` pair ends one line, like a lone `\n`. */
  lemma WindowsLineEnd()
    ensures SimasToJson("MOV A B;\r\nADD A;") == [["MOV", "A", "B"], ["ADD", "A"]]
  {
    Pieces();
    LeadingBreak();
    MoveLine();
    TwoParts("MOV A B;", CARRIAGE_RETURN, "\nADD A;", [["MOV", "A", "B"]], [["ADD", "A"]]);
  }
}
