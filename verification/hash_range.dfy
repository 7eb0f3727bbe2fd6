/** The hash range a read context is bound to, and the parser of its
    single `"<lower>:<upper>"` predicate string
    (`ElasticIndexReadContext::parseHashRange`). */
module HashRangeText {
  import opened Optional
  import opened Int64Text

  /** A pair of signed 64-bit bounds.  Which hashes the pair covers (the
      exact bounds, the wrap-around) belongs to the index and is an
      abstract test in this model. */
  datatype HashRange = HashRange(lo: Int64, hi: Int64)

  /** Position of the first occurrence of `d` in `s`. */
  function FirstIndexOf(s: string, d: char): (k: nat)
    requires d in s
    ensures k < |s| && s[k] == d && d !in s[..k]
  {
    if s[0] == d then 0 else 1 + FirstIndexOf(s[1..], d)
  }

  /** Splits `s` at the first `d` into the text before it and the text
      after it; without a `d` the whole string is the only part. */
  function SplitToTwo(s: string, d: char): (parts: seq<string>)
    ensures |parts| == 1 || |parts| == 2
    ensures |parts| == 1 <==> d !in s
    ensures |parts| == 1 ==> parts[0] == s
    ensures |parts| == 2 ==> s == parts[0] + [d] + parts[1] && d !in parts[0]
  {
    if d in s then
      var k := FirstIndexOf(s, d);
      assert s == s[..k] + [d] + s[k + 1..];
      [s[..k], s[k + 1..]]
    else [s]
  }

  /** The range predicate: exactly one string, split at `':'` into exactly
      two parts, each a signed 64-bit decimal; `None` on any failure, in
      which case no range is produced. */
  function ParseHashRange(predicates: seq<string>): (r: Option<HashRange>)
    ensures |predicates| != 1 ==> r.None?
    ensures r.Some? ==> multiset(predicates[0])[':'] == 1
    ensures r.Some? ==>
              exists k :: 0 <= k < |predicates[0]| && predicates[0][k] == ':'
                          && ParseInt64(predicates[0][..k]) == Some(r.value.lo)
                          && ParseInt64(predicates[0][k + 1..]) == Some(r.value.hi)
  {
    if |predicates| != 1 then None
    else
      var parts := SplitToTwo(predicates[0], ':');
      if |parts| != 2 then None
      else
        match (ParseInt64(parts[0]), ParseInt64(parts[1]))
        case (Some(lo), Some(hi)) =>
          ParsedHasNoColon(parts[0]);
          ParsedHasNoColon(parts[1]);
          var s := predicates[0];
          var k := |parts[0]|;
          assert s[k] == ':' && s[..k] == parts[0] && s[k + 1..] == parts[1];
          Some(HashRange(lo, hi))
        case _ => None
  }

  /** The text of a range in the form the parser reads. */
  function FormatHashRange(range: HashRange): string {
    FormatInt64(range.lo) + ":" + FormatInt64(range.hi)
  }

  /** Two strings glued around one `d` split back into the same two strings
      when the first has no `d`. */
  lemma {:induction false} SplitJoined(a: string, b: string, d: char)
    requires d !in a
    ensures SplitToTwo(a + [d] + b, d) == [a, b]
  {
    var s := a + [d] + b;
    assert s[|a|] == d;
    var parts := SplitToTwo(s, d);
    var x := parts[0];
    if |x| < |a| {
      assert false;
    } else if |a| < |x| {
      assert false;
    }
    assert x == s[..|a|] == a;
    assert parts[1] == s[|a| + 1..] == b;
  }

  /** Completeness: one string made of two accepted 64-bit literals around
      a colon parses to the range of those two values. */
  lemma ParseJoinedLiterals(a: string, b: string)
    requires ParseInt64(a).Some? && ParseInt64(b).Some?
    ensures ParseHashRange([a + ":" + b]) == Some(HashRange(ParseInt64(a).value, ParseInt64(b).value))
  {
    ParsedHasNoColon(a);
    SplitJoined(a, b, ':');
  }

  /** Printing a range and parsing it back gives the same range. */
  lemma ParseFormatRange(range: HashRange)
    ensures ParseHashRange([FormatHashRange(range)]) == Some(range)
  {
    ParseFormatRoundTrip(range.lo);
    ParseFormatRoundTrip(range.hi);
    ParseJoinedLiterals(FormatInt64(range.lo), FormatInt64(range.hi));
  }

  /** Every failure mode of the parser: a predicate count other than one, a
      string with no colon, a string with two or more colons. */
  lemma ParseHashRangeFailures(predicates: seq<string>)
    ensures |predicates| != 1 ==> ParseHashRange(predicates) == None
    ensures |predicates| == 1 && ':' !in predicates[0] ==> ParseHashRange(predicates) == None
    ensures |predicates| == 1 && multiset(predicates[0])[':'] >= 2 ==> ParseHashRange(predicates) == None
  {
  }

  /** "10:20" is the range (10, 20). */
  lemma ParseHashRangeAccepts()
    ensures ParseHashRange(["10:20"]) == Some(HashRange(10, 20))
  {
    ParseTwoDigits('1', '0');
    ParseTwoDigits('2', '0');
    assert ParseInt64("10") == Some(10) && ParseInt64("20") == Some(20);
    assert "10:20" == "10" + ":" + "20";
    ParseJoinedLiterals("10", "20");
  }

  lemma ParseTwoDigits(a: char, b: char)
    requires IsDigit(a) && IsDigit(b)
    ensures ParseInt64([a, b]) == Some(10 * DigitValue(a) + DigitValue(b))
  {
    assert DigitsValue([a]) == DigitValue(a) by {
      assert [a][..0] == [];
    }
    assert DigitsValue([a, b]) == 10 * DigitValue(a) + DigitValue(b) by {
      assert [a, b][..1] == [a];
    }
  }

  /** "10", "10:20:30" and "a:20" are rejected, as are zero or two
      predicate strings. */
  lemma ParseHashRangeRejects()
    ensures ParseHashRange(["10"]) == None
    ensures ParseHashRange(["10:20:30"]) == None
    ensures ParseHashRange(["a:20"]) == None
    ensures ParseHashRange([]) == None
    ensures ParseHashRange(["10:20", "30:40"]) == None
  {
    RejectsTwoColons();
    RejectsLetter();
  }

  lemma RejectsTwoColons()
    ensures ParseHashRange(["10:20:30"]) == None
  {
    assert "10:20:30" == "10" + ":" + "20:30";
    SplitJoined("10", "20:30", ':');
    assert ParseInt64("20:30") == None by {
      assert !IsDigit("20:30"[2]) && !IsSign("20:30"[2]);
    }
  }

  lemma RejectsLetter()
    ensures ParseHashRange(["a:20"]) == None
  {
    assert "a:20" == "a" + ":" + "20";
    SplitJoined("a", "20", ':');
    assert ParseInt64("a") == None by {
      assert !IsDigit("a"[0]);
    }
  }
}
