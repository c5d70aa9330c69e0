/**
 Concrete uploads: the display titles of a few file names, among them two
 names that collide. Each step is its own lemma, so that no proof has to
 evaluate a long string literal.
 */
module AppUtilsExamples {
  import opened PyString
  import opened AppUtils

  /** The display title of the file `solar_farm_data.csv`. */
  lemma ProcessNameExample()
    ensures ProcessName("solar_farm_data.csv") == "Solar Farm Data"
  {
    SolarStripped();
    SolarWords();
    SolarSpaced();
    SolarTitled();
  }

  lemma SolarStripped()
    ensures Replace("solar_farm_data.csv", ".csv", "") == "solar_farm_data"
  {
    ReplaceAppendFree("solar_farm_data", ".csv", ".csv", "");
    CsvAlone();
    assert "solar_farm_data" + ".csv" == "solar_farm_data.csv";
  }

  lemma SolarWords()
    ensures "solar_farm_data" == "solar" + "_" + "farm" + "_" + "data"
  {
  }

  lemma SolarSpaced()
    ensures Replace("solar" + "_" + "farm" + "_" + "data", "_", " ") == "solar" + " " + "farm" + " " + "data"
  {
    ReplaceCharAppend("solar" + "_" + "farm" + "_", "data", '_', ' ');
    ReplaceCharAppend("solar" + "_" + "farm", "_", '_', ' ');
    ReplaceCharAppend("solar" + "_", "farm", '_', ' ');
    ReplaceCharAppend("solar", "_", '_', ' ');
    UnderscoreAlone();
    ReplaceFree("solar", "_", " ");
    ReplaceFree("farm", "_", " ");
    ReplaceFree("data", "_", " ");
  }

  lemma SolarTitled()
    ensures IsAscii("solar" + " " + "farm" + " " + "data")
    ensures Title("solar" + " " + "farm" + " " + "data") == "Solar Farm Data"
  {
    SolarTitledPieces();
    SolarTitledWords();
    assert "Solar" + " " + "Farm" + " " + "Data" == "Solar Farm Data";
  }

  lemma SolarTitledPieces()
    ensures TitleFrom(false, "solar" + " " + "farm" + " " + "data")
         == TitleFrom(false, "solar") + TitleFrom(true, " ") + TitleFrom(false, "farm")
          + TitleFrom(true, " ") + TitleFrom(false, "data")
  {
    TitleFromAppend(false, "solar" + " " + "farm" + " ", "data");
    TitleFromAppend(false, "solar" + " " + "farm", " ");
    TitleFromAppend(false, "solar" + " ", "farm");
    TitleFromAppend(false, "solar", " ");
  }

  lemma SolarTitledWords()
    ensures TitleFrom(false, "solar") == "Solar"
    ensures TitleFrom(true, " ") == " "
    ensures TitleFrom(false, "farm") == "Farm"
    ensures TitleFrom(false, "data") == "Data"
  {
  }

  lemma CsvAlone()
    ensures Replace(".csv", ".csv", "") == ""
  {
    assert OccursAt(".csv", ".csv", 0);
    assert ".csv"[4..] == [];
  }

  lemma UnderscoreAlone()
    ensures Replace("_", "_", " ") == " "
  {
    assert OccursAt("_", "_", 0);
    assert "_"[1..] == [];
  }

  /**
   Removal is a single scan, so a `.csv` that only appears once another is
   removed survives it; title-casing then raises its `c`.
   */
  lemma ProcessNameExposedCsv()
    ensures Replace("..csvcsv", ".csv", "") == ".csv"
    ensures ProcessName("..csvcsv") == ".Csv"
  {
    ExposedStripped();
    ReplaceFree(".csv", "_", " ");
    ExposedTitled();
  }

  lemma ExposedStripped()
    ensures Replace("..csvcsv", ".csv", "") == ".csv"
  {
    assert "..csvcsv"[0..4][1] == '.';
    ReplaceSkip("..csvcsv", ".csv", "");
    assert "..csvcsv"[1..] == ".csvcsv";
    assert OccursAt(".csvcsv", ".csv", 0);
    assert ".csvcsv"[4..] == "csv";
    ReplaceFree("csv", ".csv", "");
  }

  lemma ExposedTitled()
    ensures Title(".csv") == ".Csv"
  {
    assert TitleFrom(false, ".csv") == ".Csv";
  }

  /** `a_b.csv` and `A b` both get the display title `A B`. */
  lemma CollidingTitles()
    ensures ProcessName("a_b.csv") == ProcessName("A b")
    ensures ProcessName("A b") == "A B"
  {
    SnakeTitle();
    UpperTitle();
  }

  lemma SnakeTitle()
    ensures ProcessName("a_b.csv") == "A B"
  {
    SnakeStripped();
    SnakeSpaced();
    SnakeTitled();
  }

  lemma SnakeTitled()
    ensures Title("a b") == "A B"
  {
    assert TitleFrom(false, "a b") == "A B";
  }

  lemma UpperTitle()
    ensures ProcessName("A b") == "A B"
  {
    SpacedUpperFree();
    assert Title("A b") == "A B" by {
      assert TitleFrom(false, "A b") == "A B";
    }
  }

  lemma SnakeStripped()
    ensures Replace("a_b.csv", ".csv", "") == "a" + "_" + "b"
  {
    ReplaceAppendFree("a_b", ".csv", ".csv", "");
    CsvAlone();
    assert "a_b" + ".csv" == "a_b.csv";
  }

  lemma SnakeSpaced()
    ensures Replace("a" + "_" + "b", "_", " ") == "a b"
  {
    ReplaceCharAppend("a" + "_", "b", '_', ' ');
    ReplaceCharAppend("a", "_", '_', ' ');
    UnderscoreAlone();
    ReplaceFree("a", "_", " ");
    ReplaceFree("b", "_", " ");
    assert "a" + " " + "b" == "a b";
  }

  lemma SpacedUpperFree()
    ensures Spaced("A b") == "A b"
  {
    ReplaceFree("A b", ".csv", "");
    ReplaceFree("A b", "_", " ");
  }
}
