/**
 The concrete repairs the index-data script was written for, worked out on
 literal text: step 1 is evaluated one scanning step at a time (or shown to
 leave the text alone), step 2 through its locality and fixed-point lemmas.
 */
module RepairExamples {
  import opened ResponseRepair

  /** The two-object text has no quote run, so step 1 leaves it alone. */
  lemma ObjectBoundaryFields()
    ensures SeparateFields("{\"a\":\"1\"}{\"a\":\"2\"}") == "{\"a\":\"1\"}{\"a\":\"2\"}"
  {
    var s: seq<char> := "{\"a\":\"1\"}{\"a\":\"2\"}";
    assert forall i :: 0 <= i < |s| - 1 && s[i] == '"' ==> IsContent(s[i + 1]);
    NoQuoteRunWhenQuotesBeforeContent(s);
    SeparateFieldsFixedPoints(s);
  }

  /** Step 2 puts a comma at the one place where `}` meets `{`. */
  lemma ObjectBoundaryObjects()
    ensures SeparateObjects("{\"a\":\"1\"}{\"a\":\"2\"}") == "{\"a\":\"1\"},{\"a\":\"2\"}"
  {
    var a: seq<char> := "{\"a\":\"1\"";
    var b: seq<char> := "\"a\":\"2\"}";
    assert NoBoundary(a) && NoBoundary(b);
    ObjectsAround(a, b);
    assert "{\"a\":\"1\"}{\"a\":\"2\"}" == a + ("}{" + b);
    assert "{\"a\":\"1\"},{\"a\":\"2\"}" == a + (ObjectSeparator + b);
  }

  /** Two stretches without `}{`, the first not ending in `}`, joined by
      `}{`: step 2 changes only the join. */
  lemma ObjectsAround(a: seq<char>, b: seq<char>)
    requires NoBoundary(a) && NoBoundary(b) && |a| > 0 && a[|a| - 1] != '}'
    ensures SeparateObjects(a + ("}{" + b)) == a + (ObjectSeparator + b)
  {
    SeparateObjectsFixedPoints(b);
    SeparateObjectsAtBoundary(b);
    SeparateObjectsPrefix(a, "}{" + b);
  }

  /** A missing comma between two objects is inserted; the fields are left alone. */
  lemma ObjectBoundaryExample()
    ensures Repair("{\"a\":\"1\"}{\"a\":\"2\"}") == "{\"a\":\"1\"},{\"a\":\"2\"}"
  {
    ObjectBoundaryFields();
    ObjectBoundaryObjects();
  }

  /** A fragment of two records whose braces meet: step 1 finds no quote
      run and step 2 inserts the one missing comma. */
  lemma FragmentExample()
    ensures Repair("\"a\":\"1\"}{\"a\":\"2\"") == "\"a\":\"1\"},{\"a\":\"2\""
  {
    FragmentFields();
    FragmentObjects();
  }

  lemma FragmentFields()
    ensures SeparateFields("\"a\":\"1\"}{\"a\":\"2\"") == "\"a\":\"1\"}{\"a\":\"2\""
  {
    var s: seq<char> := "\"a\":\"1\"}{\"a\":\"2\"";
    assert forall i :: 0 <= i < |s| - 1 && s[i] == '"' ==> IsContent(s[i + 1]);
    NoQuoteRunWhenQuotesBeforeContent(s);
    SeparateFieldsFixedPoints(s);
  }

  lemma FragmentObjects()
    ensures SeparateObjects("\"a\":\"1\"}{\"a\":\"2\"") == "\"a\":\"1\"},{\"a\":\"2\""
  {
    var a: seq<char> := "\"a\":\"1\"";
    var b: seq<char> := "\"a\":\"2\"";
    assert NoBoundary(a) && NoBoundary(b);
    ObjectsAround(a, b);
    assert "\"a\":\"1\"}{\"a\":\"2\"" == a + ("}{" + b);
    assert "\"a\":\"1\"},{\"a\":\"2\"" == a + (ObjectSeparator + b);
  }

  /** Two quoted fields written back to back get a comma between them. */
  lemma AdjacentFieldsExample()
    ensures Repair("\"x\"\"y\"") == "\"x\",\"y\""
  {
    AdjacentFieldsSeparated();
    SeparateObjectsFixedPoints("\"x\",\"y\"");
  }

  lemma AdjacentFieldsSeparated()
    ensures SeparateFields("\"x\"\"y\"") == "\"x\",\"y\""
  {
    AdjacentFieldsAfterX();
    var s: seq<char> := "\"x\"\"y\"";
    SeparateFieldsCopiesFront(s);
    assert s[1..] == "x\"\"y\"";
  }

  /** The `x` before the back-to-back quotes is copied. */
  lemma AdjacentFieldsAfterX()
    ensures SeparateFields("x\"\"y\"") == "x\",\"y\""
  {
    AdjacentFieldsMatch();
    var s: seq<char> := "x\"\"y\"";
    SeparateFieldsCopiesFront(s);
    assert s[1..] == "\"\"y\"";
  }

  /** `""y"`: the two quotes are one match. */
  lemma AdjacentFieldsMatch()
    ensures SeparateFields("\"\"y\"") == "\",\"y\""
  {
    var s: seq<char> := "\"\"y\"";
    assert QuoteRunSplit(s, 1, 2);
    SeparateFieldsReplaces(s, 2);
    assert s[2..] == "y\"";
    FieldEnd();
  }

  /** `y"`: a lone quote at the end is no match. */
  lemma FieldEnd()
    ensures SeparateFields("y\"") == "y\""
  {
    SeparateFieldsCopiesFront("y\"");
    assert "y\""[1..] == "\"";
    SeparateFieldsCopiesFront("\"");
    assert "\""[1..] == "";
  }

  /** Whitespace between two quoted fields is replaced by the comma. */
  lemma SpacedFieldsExample()
    ensures Repair("\"x\" \"y\"") == "\"x\",\"y\""
  {
    SpacedFieldsSeparated();
    SeparateObjectsFixedPoints("\"x\",\"y\"");
  }

  lemma SpacedFieldsSeparated()
    ensures SeparateFields("\"x\" \"y\"") == "\"x\",\"y\""
  {
    SpacedFieldsAfterX();
    var s: seq<char> := "\"x\" \"y\"";
    SeparateFieldsCopiesFront(s);
    assert s[1..] == "x\" \"y\"";
  }

  /** The `x` before the spaced quotes is copied. */
  lemma SpacedFieldsAfterX()
    ensures SeparateFields("x\" \"y\"") == "x\",\"y\""
  {
    SpacedFieldsMatch();
    var s: seq<char> := "x\" \"y\"";
    SeparateFieldsCopiesFront(s);
    assert s[1..] == "\" \"y\"";
  }

  /** `" "y"`: quote, space, quote is one match. */
  lemma SpacedFieldsMatch()
    ensures SeparateFields("\" \"y\"") == "\",\"y\""
  {
    var s: seq<char> := "\" \"y\"";
    assert QuoteRunSplit(s, 2, 3);
    SeparateFieldsReplaces(s, 3);
    assert s[3..] == "y\"";
    FieldEnd();
  }

  /** Three quotes in a row become `",""`, which still holds a quote run. */
  lemma TripleQuoteExample()
    ensures Repair("\"\"\"") == "\",\"\""
  {
    assert SeparateFields("\"\"\"") == "\",\"\"" by {
      assert SeparateFields("\"") == "\"" by {
        SeparateFieldsCopiesFront("\"");
        assert "\""[1..] == "";
      }
      assert SeparateFields("\"\"\"") == "\",\"\"" by {
        assert QuoteRunSplit("\"\"\"", 1, 2);
        SeparateFieldsReplaces("\"\"\"", 2);
        assert "\"\"\""[2..] == "\"";
      }
    }
    assert SeparateObjects("\",\"\"") == "\",\"\"" by {
      SeparateObjectsFixedPoints("\",\"\"");
    }
  }

  /** Repairing that text once more changes it again. */
  lemma TripleQuoteAgainExample()
    ensures Repair("\",\"\"") == "\",\",\""
  {
    assert SeparateFields("\",\"\"") == "\",\",\"" by {
      assert SeparateFields("\"\"") == "\",\"" by {
        assert QuoteRunSplit("\"\"", 1, 2);
        SeparateFieldsReplaces("\"\"", 2);
        assert "\"\""[2..] == "";
      }
      assert SeparateFields(",\"\"") == ",\",\"" by {
        SeparateFieldsCopiesFront(",\"\"");
        assert ",\"\""[1..] == "\"\"";
      }
      assert SeparateFields("\",\"\"") == "\",\",\"" by {
        SeparateFieldsCopiesFront("\",\"\"");
        assert "\",\"\""[1..] == ",\"\"";
      }
    }
    assert SeparateObjects("\",\",\"") == "\",\",\"" by {
      SeparateObjectsFixedPoints("\",\",\"");
    }
  }

  /** An empty string is taken for two adjacent fields: even valid JSON, an
      array holding one empty string, is altered. */
  lemma EmptyStringExample()
    ensures Repair("[\"\"]") == "[\",\"]"
  {
    EmptyStringFields();
    SeparateObjectsFixedPoints("[\",\"]");
  }

  lemma EmptyStringFields()
    ensures SeparateFields("[\"\"]") == "[\",\"]"
  {
    var s: seq<char> := "[\"\"]";
    SeparateFieldsCopiesFront(s);
    var v := s[1..];
    assert v == "\"\"]";
    assert QuoteRunSplit(v, 1, 2);
    SeparateFieldsReplaces(v, 2);
    assert v[2..] == "]";
    SeparateFieldsCopiesFront("]");
    assert "]"[1..] == "";
  }

  /** So the repair is not idempotent: repairing `"""` a second time
      changes it again. */
  lemma RepairNotIdempotent()
    ensures var s: seq<char> := "\"\"\""; Repair(Repair(s)) != Repair(s)
  {
    TripleQuoteExample();
    TripleQuoteAgainExample();
  }
}
