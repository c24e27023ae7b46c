/**
 Worked examples: the inputs the program's doc comments mention and a few
 edge cases, each proved first for any converter that reads the field texts
 as expected, then for the decimal converters.
 */
module WorkedExamples {
  import opened Wrappers
  import opened Text
  import opened ComplexPlane
  import opened PairParser
  import opened Decimal

  /** The documentation's size example: "400x600" splits at 'x'. */
  lemma SizeExampleWith(s: string, conv: string -> Option<nat>)
    requires s == "400x600"
    requires conv("400") == Some(400) && conv("600") == Some(600)
    ensures ParsePair(s, 'x', conv) == Some((400, 600))
  {
    var a, b, none := "400", "600", [];
    assert Trimmed(a) && Trimmed(b);
    assert s == none + a + none + ['x'] + none + b + none;
    ParsePairRoundTrip(none, a, none, 'x', none, b, none, conv);
  }

  lemma SizeExample(s: string)
    requires s == "400x600"
    ensures ParsePair(s, 'x', DecimalNat) == Some((400, 600))
  {
    ThreeDigits('4', '0', '0');
    ThreeDigits('6', '0', '0');
    SizeExampleWith(s, DecimalNat);
  }

  /** Whitespace around either field is ignored. */
  lemma PaddedExampleWith(s: string, conv: string -> Option<nat>)
    requires s == " 3 , 4 "
    requires conv("3") == Some(3) && conv("4") == Some(4)
    ensures ParsePair(s, ',', conv) == Some((3, 4))
  {
    var a, b, sp := "3", "4", " ";
    assert Trimmed(a) && Trimmed(b) && AllWhitespace(sp);
    assert s == sp + a + sp + [','] + sp + b + sp;
    ParsePairRoundTrip(sp, a, sp, ',', sp, b, sp, conv);
  }

  lemma PaddedExample(s: string)
    requires s == " 3 , 4 "
    ensures ParsePair(s, ',', DecimalNat) == Some((3, 4))
  {
    OneDigit('3');
    OneDigit('4');
    PaddedExampleWith(s, DecimalNat);
  }

  /** A second separator stays in the right field, so "1,2,3" parses only if
      the converter accepts "2,3" as one value. */
  lemma ExtraSeparatorExampleWith<T>(s: string, conv: string -> Option<T>)
    requires s == "1,2,3"
    requires conv("2,3") == None
    ensures ParsePair(s, ',', conv) == None
  {
    var a, b := "1", "2,3";
    assert s == a + [','] + b;
    assert Trimmed(a) && Trimmed(b);
    ParsePairTrimmedFields(a, ',', b, conv);
  }

  lemma ExtraSeparatorExample(s: string)
    requires s == "1,2,3"
    ensures ParsePair(s, ',', DecimalNat) == None
  {
    var b := "2,3";
    assert !IsDigit(b[1]);
    ExtraSeparatorExampleWith(s, DecimalNat);
  }

  /** The documentation's complex example. */
  lemma ComplexExampleWith(s: string, conv: string -> Option<real>)
    requires s == "1.0,0.5"
    requires conv("1.0") == Some(1.0) && conv("0.5") == Some(0.5)
    ensures ParseComplex(s, conv) == Some(Complex(1.0, 0.5))
  {
    var a, b := "1.0", "0.5";
    assert s == a + [','] + b;
    assert Trimmed(a) && Trimmed(b);
    ParsePairTrimmedFields(a, ',', b, conv);
  }

  lemma ComplexExample(s: string)
    requires s == "1.0,0.5"
    ensures ParseComplex(s, DecimalReal) == Some(Complex(1.0, 0.5))
  {
    PointDigits('1', '0');
    PointDigits('0', '5');
    ComplexExampleWith(s, DecimalReal);
  }

  /** A negative imaginary part. */
  lemma NegativeComplexExampleWith(s: string, conv: string -> Option<real>)
    requires s == "1.5,-0.3"
    requires conv("1.5") == Some(1.5) && conv("-0.3") == Some(-0.3)
    ensures ParseComplex(s, conv) == Some(Complex(1.5, -0.3))
  {
    var a, b := "1.5", "-0.3";
    assert s == a + [','] + b;
    assert Trimmed(a) && Trimmed(b);
    ParsePairTrimmedFields(a, ',', b, conv);
  }

  lemma NegativeComplexExample(s: string)
    requires s == "1.5,-0.3"
    ensures ParseComplex(s, DecimalReal) == Some(Complex(1.5, -0.3))
  {
    PointDigits('1', '5');
    PointDigits('0', '3');
    Negated("0.3");
    assert "-0.3" == ['-'] + "0.3";
    NegativeComplexExampleWith(s, DecimalReal);
  }

  /** Text with no comma is never a complex number, whatever the converter. */
  lemma GarbageExample(s: string, conv: string -> Option<real>)
    requires s == "garbage"
    ensures ParseComplex(s, conv) == None
  {
  }
}
