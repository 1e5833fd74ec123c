/**
 * A worked run of the processor: three lines for two stations, parsed,
 * folded into the table and written out in name order. Byte strings are
 * spelled as their ASCII codes.
 */
module Example {
  import opened Common
  import opened Stats
  import FixedPoint
  import ByteOrder
  import Processor

  /** "Hamburg" and "Berlin". */
  const Hamburg: seq<byte> := [72, 97, 109, 98, 117, 114, 103]
  const Berlin: seq<byte> := [66, 101, 114, 108, 105, 110]

  /** "Hamburg;12.0", "Hamburg;-3.5", "Berlin;5.2". */
  const Lines: seq<seq<byte>> := [
    Hamburg + [SEMICOLON, 49, 50, 46, 48],
    Hamburg + [SEMICOLON, 45, 51, 46, 53],
    Berlin + [SEMICOLON, 53, 46, 50]]

  const Observed: seq<Observation> := [Observation(Hamburg, 120), Observation(Hamburg, -35), Observation(Berlin, 52)]

  /** "Berlin=5.2/5.2/5.2" and "Hamburg=-3.5/4.2/12.0". */
  const BerlinEntry: seq<byte> := Berlin + [EQUALS, 53, 46, 50, SLASH, 53, 46, 50, SLASH, 53, 46, 50]
  const HamburgEntry: seq<byte> := Hamburg + [EQUALS, 45, 51, 46, 53, SLASH, 52, 46, 50, SLASH, 49, 50, 46, 48]

  /** `{Berlin=5.2/5.2/5.2, Hamburg=-3.5/4.2/12.0}` and a newline. */
  const Expected: seq<byte> := [LBRACE] + BerlinEntry + [COMMA, SPACE] + HamburgEntry + [RBRACE, NEWLINE]

  lemma ExampleEncodings()
    ensures FixedPoint.Encode(120) == [49, 50, 46, 48]
    ensures FixedPoint.Encode(-35) == [45, 51, 46, 53]
    ensures FixedPoint.Encode(52) == [53, 46, 50]
    ensures FixedPoint.Encode(42) == [52, 46, 50]
  {
    assert FixedPoint.NatDigits(12) == FixedPoint.NatDigits(1) + [ZERO + 2];
  }

  /** Each line splits into its name and scaled value. */
  lemma ExampleLine0()
    ensures Processor.ParseLine(Lines[0]) == Success(Observed[0])
  {
    ExampleEncodings();
    Processor.ParseLineRoundTrip(Hamburg, 120);
    assert Lines[0] == Hamburg + [SEMICOLON] + [49, 50, 46, 48];
  }

  lemma ExampleLine1()
    ensures Processor.ParseLine(Lines[1]) == Success(Observed[1])
  {
    ExampleEncodings();
    Processor.ParseLineRoundTrip(Hamburg, -35);
    assert Lines[1] == Hamburg + [SEMICOLON] + [45, 51, 46, 53];
  }

  lemma ExampleLine2()
    ensures Processor.ParseLine(Lines[2]) == Success(Observed[2])
  {
    ExampleEncodings();
    Processor.ParseLineRoundTrip(Berlin, 52);
    assert Lines[2] == Berlin + [SEMICOLON] + [53, 46, 50];
  }

  /** The lines parse to the scaled values 120, -35 and 52, with no error. */
  lemma ExampleScan()
    ensures Processor.Scan(Lines) == Processor.Scanned(Observed, None)
  {
    forall i | 0 <= i < |Lines|
      ensures Processor.ParseLine(Lines[i]) == Success(Observed[i])
    {
      if i == 0 {
        ExampleLine0();
      } else if i == 1 {
        ExampleLine1();
      } else {
        ExampleLine2();
      }
    }
    Processor.ScanAll(Lines, Observed);
  }

  /** Hamburg's record is min -3.5, max 12.0 over two lines; Berlin's is 5.2 once. */
  lemma ExampleTable()
    ensures Aggregate(Observed) == map[Hamburg := Data(-35, 120, 85, 2), Berlin := Data(52, 52, 52, 1)]
  {
    assert Observed[..2][..1][..0] == [];
    assert Aggregate(Observed[..2][..1]) == map[Hamburg := Data(120, 120, 120, 1)];
    assert Aggregate(Observed[..2]) == map[Hamburg := Data(-35, 120, 85, 2)];
    assert Berlin != Hamburg;
  }

  /** Berlin sorts before Hamburg. */
  lemma ExampleNames()
    ensures [Berlin, Hamburg] == ByteOrder.SortedKeys({Hamburg, Berlin})
  {
    assert ByteOrder.Below(Berlin, Hamburg);
    ByteOrder.BelowReflexive(Berlin);
    ByteOrder.BelowReflexive(Hamburg);
    assert ByteOrder.Sorted([Berlin, Hamburg]);
    assert Berlin != Hamburg;
    assert multiset([Berlin, Hamburg]) == multiset({Hamburg, Berlin});
    ByteOrder.IsSortedKeys([Berlin, Hamburg], {Hamburg, Berlin});
  }

  /** The two entries, the mean 8.5 / 2 = 4.25 rounding (half to even) to 4.2. */
  lemma ExampleEntries()
    ensures Processor.Entry(Berlin, Data(52, 52, 52, 1)) == BerlinEntry
    ensures Processor.Entry(Hamburg, Data(-35, 120, 85, 2)) == HamburgEntry
  {
    ExampleEncodings();
    assert Processor.RoundQuotient(85, 2) == 42;
    assert Processor.RoundQuotient(52, 1) == 52;
    Processor.EntryText(Berlin, Data(52, 52, 52, 1));
    Processor.EntryText(Hamburg, Data(-35, 120, 85, 2));
  }

  /** The values -0.1, 0.0 and 0.0 of one station: the mean -0.0333... is
      negative and rounds to zero, so it prints as `-0.0`. */
  lemma ExampleNegativeZeroMean()
    ensures Aggregate([Observation(Berlin, -1), Observation(Berlin, 0), Observation(Berlin, 0)])[Berlin]
      == Data(-1, 0, -1, 3)
    ensures Processor.FormatMean(-1, 3) == [MINUS, ZERO, DOT, ZERO]
  {
    var obs := [Observation(Berlin, -1), Observation(Berlin, 0), Observation(Berlin, 0)];
    assert obs[..2][..1][..0] == [];
    assert Aggregate(obs[..2][..1]) == map[Berlin := Data(-1, -1, -1, 1)];
    assert Aggregate(obs[..2]) == map[Berlin := Data(-1, 0, -1, 2)];
    assert Processor.RoundQuotient(-1, 3) == 0;
  }

  const Final: Table := map[Hamburg := Data(-35, 120, 85, 2), Berlin := Data(52, 52, 52, 1)]

  /** printResult's writes for this table spell the expected text. */
  lemma ExampleOutput()
    ensures Processor.Flatten(Processor.Output([Berlin, Hamburg], Final)) == Expected
  {
    ExampleEntries();
    var berlin := Processor.Entry(Berlin, Final[Berlin]);
    var hamburg := Processor.Entry(Hamburg, Final[Hamburg]);
    var out: seq<seq<byte>> := Processor.Output([Berlin, Hamburg], Final);
    assert Processor.Entries([Berlin, Hamburg], Final) == [berlin, hamburg];
    assert Processor.Leading([berlin]) == [berlin, [COMMA, SPACE]];
    assert out == [[LBRACE], berlin, [COMMA, SPACE], hamburg, [RBRACE, NEWLINE]];
    assert |out[..1][..0]| == 0 && out[..2][..1] == out[..1] && out[..3][..2] == out[..2];
    assert out[..4][..3] == out[..3] && out[..5] == out && out[..5][..4] == out[..4];
    assert Processor.Flatten(out[..1]) == [LBRACE];
    assert Processor.Flatten(out[..2]) == [LBRACE] + berlin;
    assert Processor.Flatten(out[..3]) == [LBRACE] + berlin + [COMMA, SPACE];
    assert Processor.Flatten(out[..4]) == [LBRACE] + berlin + [COMMA, SPACE] + hamburg;
    assert Processor.Flatten(out) == [LBRACE] + berlin + [COMMA, SPACE] + hamburg + [RBRACE, NEWLINE];
  }

  /** The whole run: these lines parse without error, and printResult writes
      exactly the expected text. */
  lemma ExampleRun()
    ensures Processor.Scan(Lines).err.None?
    ensures Aggregate(Processor.Scan(Lines).obs) == Final
    ensures ByteOrder.SortedKeys(Final.Keys) == [Berlin, Hamburg]
    ensures Processor.Flatten(Processor.Output(ByteOrder.SortedKeys(Final.Keys), Final)) == Expected
  {
    ExampleScan();
    ExampleTable();
    assert Final.Keys == {Hamburg, Berlin};
    ExampleNames();
    ExampleOutput();
  }
}
