/**
 `parse_pair` and `parse_complex`: split a string at the first occurrence of a
 separator, trim both halves, and convert each one. The conversion (Rust's
 `T::from_str`) is a parameter: any total function from text to an optional
 value.
 */
module PairParser {
  import opened Wrappers
  import opened Text
  import opened ComplexPlane

  /** A pair of values, or nothing when the text is not `<left><sep><right>`
      with both fields convertible. */
  function ParsePair<T>(s: string, sep: char, conv: string -> Option<T>): (r: Option<(T, T)>)
    ensures sep !in s ==> r == None
    ensures r.Some? ==>
              exists k {:trigger FirstAt(s, sep, k)} | FirstAt(s, sep, k) ::
                && conv(Trim(s[..k])) == Some(r.value.0)
                && conv(Trim(s[k + 1..])) == Some(r.value.1)
  {
    match Find(s, sep)
    case None => None
    case Some(k) =>
      match (conv(Trim(s[..k])), conv(Trim(s[k + 1..])))
      case (Some(l), Some(r)) => Some((l, r))
      case _ => None
  }

  /** The result of converting both fields: a pair only when both succeed. */
  ghost function BothFields<T>(left: string, right: string, conv: string -> Option<T>): Option<(T, T)> {
    if conv(Trim(left)).Some? && conv(Trim(right)).Some? then
      Some((conv(Trim(left)).value, conv(Trim(right)).value))
    else
      None
  }

  /** Only the first separator splits: everything after it, further separators
      included, is the right field, and either field failing fails the whole. */
  lemma ParsePairAtFirstSeparator<T>(left: string, sep: char, right: string, conv: string -> Option<T>)
    requires sep !in left
    ensures ParsePair(left + [sep] + right, sep, conv) == BothFields(left, right, conv)
  {
    var s := left + [sep] + right;
    FindFirst(left, sep, right);
    assert s[..|left|] == left;
    assert s[|left| + 1..] == right;
  }

  /** Position `k` holds the first separator of `s` and both fields around it convert. */
  ghost predicate SplitsAt<T>(s: string, sep: char, conv: string -> Option<T>, k: int) {
    && FirstAt(s, sep, k)
    && conv(Trim(s[..k])).Some?
    && conv(Trim(s[k + 1..])).Some?
  }

  /** Fields that carry no surrounding whitespace are converted as they stand. */
  lemma ParsePairTrimmedFields<T>(left: string, sep: char, right: string, conv: string -> Option<T>)
    requires sep !in left
    requires Trimmed(left) && Trimmed(right)
    ensures ParsePair(left + [sep] + right, sep, conv)
              == if conv(left).Some? && conv(right).Some? then Some((conv(left).value, conv(right).value))
                 else None
  {
    ParsePairAtFirstSeparator(left, sep, right, conv);
    TrimTrimmed(left);
    TrimTrimmed(right);
  }

  /** A result is a pair exactly when the separator occurs and both fields
      around its first occurrence convert. */
  lemma ParsePairSucceeds<T>(s: string, sep: char, conv: string -> Option<T>)
    ensures ParsePair(s, sep, conv).Some? <==> exists k :: SplitsAt(s, sep, conv, k)
  {
    match Find(s, sep)
    case None =>
    case Some(k) =>
      var left, right := s[..k], s[k + 1..];
      assert s == left + [sep] + right;
      ParsePairAtFirstSeparator(left, sep, right, conv);
      if ParsePair(s, sep, conv).Some? {
        assert SplitsAt(s, sep, conv, k);
      }
      if j :| SplitsAt(s, sep, conv, j) {
        assert s == s[..j] + [sep] + s[j + 1..];
        FindFirst(s[..j], sep, s[j + 1..]);
        assert j == k;
      }
  }

  /** Formatting two fields around the separator, with any whitespace padding,
      parses back to their conversions. */
  lemma ParsePairRoundTrip<T>(ws1: string, a: string, ws2: string, sep: char,
                              ws3: string, b: string, ws4: string, conv: string -> Option<T>)
    requires AllWhitespace(ws1) && AllWhitespace(ws2) && AllWhitespace(ws3) && AllWhitespace(ws4)
    requires Trimmed(a) && Trimmed(b)
    requires sep !in ws1 + a + ws2
    requires conv(a).Some? && conv(b).Some?
    ensures ParsePair(ws1 + a + ws2 + [sep] + ws3 + b + ws4, sep, conv)
              == Some((conv(a).value, conv(b).value))
  {
    var left := ws1 + a + ws2;
    var right := ws3 + b + ws4;
    assert ws1 + a + ws2 + [sep] + ws3 + b + ws4 == left + [sep] + right;
    ParsePairAtFirstSeparator(left, sep, right, conv);
    TrimPadded(ws1, a, ws2);
    TrimPadded(ws3, b, ws4);
  }

  /** `parse_complex`: a comma-separated pair of reals as a complex number. */
  function ParseComplex(s: string, conv: string -> Option<real>): (r: Option<Complex>)
    ensures r.Some? <==> ParsePair(s, ',', conv).Some?
    ensures r.Some? ==> (r.value.re == ParsePair(s, ',', conv).value.0
                      && r.value.im == ParsePair(s, ',', conv).value.1)
  {
    match ParsePair(s, ',', conv)
    case Some((l, r)) => Some(Complex(l, r))
    case None => None
  }

  /** "re,im" with trimmed fields reads as the complex number `re + im i`. */
  lemma ParseComplexFields(re: string, im: string, conv: string -> Option<real>)
    requires ',' !in re
    ensures ParseComplex(re + [','] + im, conv)
              == if conv(Trim(re)).Some? && conv(Trim(im)).Some? then
                   Some(Complex(conv(Trim(re)).value, conv(Trim(im)).value))
                 else
                   None
  {
    ParsePairAtFirstSeparator(re, ',', im, conv);
  }
}
