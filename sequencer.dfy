/**
  * The report-number sequencer, `generate_mir_number` (main.py:131-146):
  * find the most recent MIR whose number is LIKE `<project_code>-MIR-%`,
  * read the integer after its last `-`, and return `MIR-` followed by the
  * next integer zero-padded to four digits; `MIR-0001` when nothing matches.
  *
  * `create_mir` stores the returned string itself, which has the form
  * `MIR-NNNN`. The lemmas below show that such a string never matches the
  * filter, so every call returns `MIR-0001`.
  */
module Sequencer {
  import opened Wrappers
  import opened Text
  import opened SqlLike
  import opened Records

  /** The LIKE pattern of the query at main.py:135. */
  function FilterPattern(code: string): string {
    code + "-MIR-%"
  }

  /**
    * `.filter(mir_number LIKE pattern).order_by(id desc).first()`: a row
    * with the largest id among those whose number matches.
    */
  function LastMatching(mirs: seq<MirMaster>, pattern: string): (r: Option<MirMaster>)
    ensures r.None? <==> forall i :: 0 <= i < |mirs| ==> !Like(mirs[i].mirNumber, pattern)
    ensures r.Some? ==> r.value in mirs && Like(r.value.mirNumber, pattern)
    ensures r.Some? ==>
      forall i :: 0 <= i < |mirs| && Like(mirs[i].mirNumber, pattern) ==> mirs[i].id <= r.value.id
    decreases |mirs|
  {
    if |mirs| == 0 then None
    else
      var rest := LastMatching(mirs[1..], pattern);
      if !Like(mirs[0].mirNumber, pattern) then rest
      else if rest.Some? && rest.value.id > mirs[0].id then rest
      else Some(mirs[0])
  }

  /** `int()` rejected the text after the last `-` (a `ValueError` in the source). */
  datatype SequenceError = InvalidSuffix(segment: string)

  function GenerateMirNumber(code: string, mirs: seq<MirMaster>): Result<string, SequenceError> {
    match LastMatching(mirs, FilterPattern(code))
    case None => Ok("MIR-" + Format04d(1))
    case Some(last) =>
      var segment := LastSegment(last.mirNumber);
      match PyInt(segment)
      case None => Err(InvalidSuffix(segment))
      case Some(lastNum) => Ok("MIR-" + Format04d(lastNum + 1))
  }

  /** The shape of the numbers the generator produces: `MIR-` and at least four digits. */
  predicate WellFormedNumber(s: string) {
    |s| >= 8 && s[..4] == "MIR-" && AllDigits(s[4..])
  }

  function NumberValue(s: string): nat
    requires WellFormedNumber(s)
  {
    DecimalValue(s[4..])
  }

  /** With no matching record the first number is `MIR-0001`. */
  lemma FirstNumber(code: string, mirs: seq<MirMaster>)
    requires forall i :: 0 <= i < |mirs| ==> !Like(mirs[i].mirNumber, FilterPattern(code))
    ensures GenerateMirNumber(code, mirs) == Ok("MIR-0001")
  {
    assert NatToDecimal(1) == "1";
    assert Format04d(1) == "0001";
    assert "MIR-" + "0001" == "MIR-0001";
  }

  /**
    * After a matching record whose last segment reads as `n`, the next
    * number is `MIR-` and the digits of n + 1, padded to four and never
    * cut: reading it back gives n + 1.
    */
  lemma NextNumber(code: string, mirs: seq<MirMaster>, last: MirMaster, n: int)
    requires LastMatching(mirs, FilterPattern(code)) == Some(last)
    requires PyInt(LastSegment(last.mirNumber)) == Some(n)
    ensures n >= 0
    ensures GenerateMirNumber(code, mirs) == Ok("MIR-" + ZeroPad(NatToDecimal(n + 1), 4))
    ensures WellFormedNumber(GenerateMirNumber(code, mirs).value)
    ensures NumberValue(GenerateMirNumber(code, mirs).value) == n + 1
    ensures var digits := NatToDecimal(n + 1);
            var r := GenerateMirNumber(code, mirs).value;
            |r| == 4 + (if |digits| < 4 then 4 else |digits|) && r[|r| - |digits|..] == digits
  {
    var segment := LastSegment(last.mirNumber);
    LastSegmentLacksDash(last.mirNumber);
    PyIntNonNegative(segment);
    assert GenerateMirNumber(code, mirs) == Ok("MIR-" + Format04d(n + 1));
    assert Format04d(n + 1) == ZeroPad(NatToDecimal(n + 1), 4);
    PrefixedPadding(NatToDecimal(n + 1));
  }

  /** `MIR-` followed by a zero-padded digit string is a well-formed number with that value. */
  lemma PrefixedPadding(digits: string)
    requires AllDigits(digits)
    ensures var r := "MIR-" + ZeroPad(digits, 4);
      && WellFormedNumber(r) && NumberValue(r) == DecimalValue(digits)
      && |r| == 4 + (if |digits| < 4 then 4 else |digits|) && r[|r| - |digits|..] == digits
  {
    PaddedDigits(digits, 4);
    var z := ZeroPad(digits, 4);
    PrefixedDigits("MIR-", z, |digits|);
  }

  lemma PrefixedDigits(prefix: string, z: string, k: nat)
    requires prefix == "MIR-" && AllDigits(z) && |z| >= 4 && k <= |z|
    ensures WellFormedNumber(prefix + z) && (prefix + z)[4..] == z
    ensures (prefix + z)[|prefix + z| - k..] == z[|z| - k..]
  {
    assert (prefix + z)[..4] == prefix;
  }

  /** The generator fails exactly when the matched number's last segment is not an integer. */
  lemma GenerateFailsOnlyOnBadSuffix(code: string, mirs: seq<MirMaster>)
    ensures GenerateMirNumber(code, mirs).Err? <==>
      LastMatching(mirs, FilterPattern(code)).Some? &&
      PyInt(LastSegment(LastMatching(mirs, FilterPattern(code)).value.mirNumber)).None?
    ensures GenerateMirNumber(code, mirs).Ok? ==>
      WellFormedNumber(GenerateMirNumber(code, mirs).value) &&
      NumberValue(GenerateMirNumber(code, mirs).value) >= 1
  {
    match LastMatching(mirs, FilterPattern(code))
    case None =>
      FirstNumber(code, mirs);
      assert "MIR-0001"[4..] == "0001";
    case Some(last) =>
      match PyInt(LastSegment(last.mirNumber))
      case None =>
      case Some(n) =>
        NextNumber(code, mirs, last, n);
  }

  /** A generated number has exactly one `-`. */
  lemma WellFormedHasOneDash(s: string)
    requires WellFormedNumber(s)
    ensures Count(s, '-') == 1
  {
    assert s == "MIR-" + s[4..];
    CountAppend("MIR-", s[4..], '-');
    assert '-' !in s[4..];
    CountAbsent(s[4..], '-');
  }

  /** No generated number contains the text `-MIR-`. */
  lemma WellFormedLacksMirInfix(s: string)
    requires WellFormedNumber(s)
    ensures !Contains(s, "-MIR-")
  {
    forall i | 0 <= i <= |s| ensures !StartsWith(s[i..], "-MIR-") {
      if i + 5 <= |s| && s[i] == '-' {
        assert forall k :: 4 <= k < |s| ==> s[k] == s[4..][k - 4];
        assert i == 3;
        assert s[i..][4] == s[7] != '-';
      }
    }
  }

  /**
    * The query filter never finds a generated number, whatever the project
    * code: the pattern has at least two `-` that a match must reproduce.
    */
  lemma FilterNeverMatches(code: string, s: string)
    requires WellFormedNumber(s)
    ensures !Like(s, FilterPattern(code))
  {
    if Like(s, FilterPattern(code)) {
      LikeKeepsDashes(s, FilterPattern(code));
      CountAppend(code, "-MIR-%", '-');
      WellFormedHasOneDash(s);
      assert false;
    }
  }

  /**
    * Once every stored number came from the generator, the generator
    * returns `MIR-0001` for every project.
    */
  lemma EveryCallYieldsFirst(code: string, mirs: seq<MirMaster>)
    requires forall i :: 0 <= i < |mirs| ==> WellFormedNumber(mirs[i].mirNumber)
    ensures GenerateMirNumber(code, mirs) == Ok("MIR-0001")
  {
    forall i | 0 <= i < |mirs| ensures !Like(mirs[i].mirNumber, FilterPattern(code)) {
      FilterNeverMatches(code, mirs[i].mirNumber);
    }
    FirstNumber(code, mirs);
  }

  /** The filter does find numbers of the form `<code>-MIR-…`, whatever the code. */
  lemma FilterFindsPrefixedNumbers(code: string, suffix: string)
    ensures Like(code + "-MIR-" + suffix, FilterPattern(code))
  {
    LikePrefix(code + "-MIR-", suffix);
    assert code + "-MIR-" + "%" == FilterPattern(code);
  }

  /**
    * A single record numbered `<code>-MIR-<digits>` is followed by the
    * next integer after those digits.
    */
  lemma SuccessorOfPrefixed(code: string, rec: MirMaster, digits: string)
    requires |digits| > 0 && AllDigits(digits)
    requires rec.mirNumber == code + "-MIR-" + digits
    ensures GenerateMirNumber(code, [rec]) ==
      Ok("MIR-" + ZeroPad(NatToDecimal(DecimalValue(digits) + 1), 4))
  {
    PrefixedIsLastMatching(code, rec, digits);
    PrefixedSegment(code, rec, digits);
    PyIntOfDigits(digits);
    NextNumber(code, [rec], rec, DecimalValue(digits));
  }

  lemma PrefixedIsLastMatching(code: string, rec: MirMaster, digits: string)
    requires rec.mirNumber == code + "-MIR-" + digits
    ensures LastMatching([rec], FilterPattern(code)) == Some(rec)
  {
    FilterFindsPrefixedNumbers(code, digits);
    assert [rec][1..] == [];
  }

  lemma PrefixedSegment(code: string, rec: MirMaster, digits: string)
    requires AllDigits(digits)
    requires rec.mirNumber == code + "-MIR-" + digits
    ensures LastSegment(rec.mirNumber) == digits
  {
    assert '-' !in digits;
    SplitWithoutSeparator(digits, '-');
    LastPieceAfterSeparator(code + "-MIR", digits, '-');
    assert code + "-MIR" + ['-'] + digits == rec.mirNumber;
  }

  /** A record numbered `P1-MIR-0042`, whatever its other columns, is followed by `MIR-0043`. */
  lemma FollowsFortyTwo(id: int, projectId: int, status: string)
    ensures GenerateMirNumber("P1", [MirMaster(id, projectId, "P1-MIR-0042", status)]) == Ok("MIR-0043")
  {
    var rec := MirMaster(id, projectId, "P1-MIR-0042", status);
    FortyTwoSplits(rec.mirNumber);
    FollowsFortyTwoFrom("P1", "0042", rec, "MIR-0043");
  }

  lemma FortyTwoSplits(number: string)
    requires number == "P1-MIR-0042"
    ensures number == "P1" + "-MIR-" + "0042"
  {
  }

  lemma FollowsFortyTwoFrom(code: string, digits: string, rec: MirMaster, next: string)
    requires code == "P1" && digits == "0042" && next == "MIR-0043"
    requires rec.mirNumber == code + "-MIR-" + digits
    ensures GenerateMirNumber(code, [rec]) == Ok(next)
  {
    ValueOfFortyTwo(digits);
    SuccessorOfPrefixed(code, rec, digits);
    PaddedFortyThree(next);
  }

  lemma PaddedFortyThree(next: string)
    requires next == "MIR-0043"
    ensures "MIR-" + ZeroPad(NatToDecimal(43), 4) == next
  {
    assert NatToDecimal(43) == "43";
    assert ZeroPad("43", 4) == "0043";
  }

  lemma ValueOfFortyTwo(digits: string)
    requires digits == "0042"
    ensures |digits| > 0 && AllDigits(digits) && DecimalValue(digits) + 1 == 43
  {
    assert AllDigits(digits);
    var d3, d2, d1 := digits[..3], digits[..2], digits[..1];
    assert d3[..2] == d2 && d2[..1] == d1 && d1[..0] == [];
    assert DecimalValue(d1) == 0;
    assert DecimalValue(d2) == 0;
    assert DecimalValue(d3) == 4;
    assert DecimalValue(digits) == 42;
  }
}
