/**
 * The identifier value type `UniqueId`: three integer fields, field-by-field
 * equality (Dafny's datatype equality, as for a Java record), the
 * lexicographic `compareTo`, and the `"%d-%d-%d"` text form.
 */
module UniqueIds {
  import opened Wrappers
  import Decimal

  /**
   * `hundredNanos` counts 100-ns ticks since the Unix epoch, `machineAddress`
   * names the generator instance, `sequenceNumber` tie-breaks ids minted in
   * the same tick by the same instance.
   */
  datatype UniqueId = UniqueId(hundredNanos: int, machineAddress: int, sequenceNumber: int)

  /** `Long.compare` / `Integer.compare`: -1, 0 or 1 by the sign of `x - y`. */
  function CompareField(x: int, y: int): (r: int)
    ensures r == -1 || r == 0 || r == 1
    ensures r < 0 <==> x < y
    ensures r == 0 <==> x == y
  {
    if x < y then -1 else if x == y then 0 else 1
  }

  /**
   * `compareTo`: the comparator chain on hundredNanos, then machineAddress,
   * then sequenceNumber; a later key is consulted only on a tie of the earlier ones.
   */
  function Compare(a: UniqueId, b: UniqueId): (r: int)
    ensures r == -1 || r == 0 || r == 1
    ensures r == 0 <==> a == b
  {
    var byTime := CompareField(a.hundredNanos, b.hundredNanos);
    if byTime != 0 then byTime
    else
      var byMachine := CompareField(a.machineAddress, b.machineAddress);
      if byMachine != 0 then byMachine
      else CompareField(a.sequenceNumber, b.sequenceNumber)
  }

  /** The fields in declaration order. */
  function Fields(id: UniqueId): seq<int> {
    [id.hundredNanos, id.machineAddress, id.sequenceNumber]
  }

  /** Lexicographic order on integer sequences: the first position where they differ decides. */
  ghost predicate LexLess(x: seq<int>, y: seq<int>) {
    exists k :: 0 <= k < |x| && k < |y| && x[..k] == y[..k] && x[k] < y[k]
  }

  /** `compareTo` is negative exactly when the field tuple is lexicographically smaller. */
  lemma CompareIsLexicographic(a: UniqueId, b: UniqueId)
    ensures Compare(a, b) < 0 <==> LexLess(Fields(a), Fields(b))
  {
    var x, y := Fields(a), Fields(b);
    if Compare(a, b) < 0 {
      if a.hundredNanos < b.hundredNanos {
        assert x[..0] == y[..0];
      } else if a.machineAddress < b.machineAddress {
        assert x[..1] == y[..1];
      } else {
        assert x[..2] == y[..2];
      }
    }
    if LexLess(x, y) {
      var k :| 0 <= k < 3 && x[..k] == y[..k] && x[k] < y[k];
      if k >= 1 { assert x[..k][0] == y[..k][0]; }
      if k == 2 { assert x[..k][1] == y[..k][1]; }
    }
  }

  /** Swapping the arguments negates the result, so exactly one of a < b, a == b, b < a holds. */
  lemma CompareAntisymmetric(a: UniqueId, b: UniqueId)
    ensures Compare(a, b) == -Compare(b, a)
    ensures Compare(a, b) < 0 || a == b || Compare(b, a) < 0
  {
  }

  /** The order is transitive, and strictly so when either step is strict. */
  lemma CompareTransitive(a: UniqueId, b: UniqueId, c: UniqueId)
    ensures Compare(a, b) <= 0 && Compare(b, c) <= 0 ==> Compare(a, c) <= 0
    ensures Compare(a, b) < 0 && Compare(b, c) <= 0 ==> Compare(a, c) < 0
    ensures Compare(a, b) <= 0 && Compare(b, c) < 0 ==> Compare(a, c) < 0
  {
  }

  /** The timestamp dominates: a strictly earlier tick sorts first whatever the other fields hold. */
  lemma TimestampDominates(a: UniqueId, b: UniqueId)
    requires a.hundredNanos < b.hundredNanos
    ensures Compare(a, b) < 0
  {
  }

  /** The ordering and equality cases the repository's tests exercise. */
  lemma OrderingExamples()
    ensures Compare(UniqueId(10, 20, 30), UniqueId(12, 1, 2)) < 0
    ensures Compare(UniqueId(10, 20, 30), UniqueId(10, 21, 2)) < 0
    ensures Compare(UniqueId(10, 20, 30), UniqueId(10, 20, 31)) < 0
    ensures UniqueId(10, 20, 30) == UniqueId(10, 20, 30)
    ensures UniqueId(10, 20, 30) != UniqueId(10, 20, 31)
  {
  }

  /** Reads `-` followed by an integer, for the second and third fields. */
  function ReadSeparatedInt(s: string): Option<(int, string)> {
    if |s| == 0 || s[0] != '-' then None else Decimal.ReadInt(s[1..])
  }

  /** Reads the text form back; None when `s` is not three `-`-joined decimal integers. */
  function Parse(s: string): Option<UniqueId> {
    match Decimal.ReadInt(s)
    case None => None
    case Some((time, afterTime)) =>
      match ReadSeparatedInt(afterTime)
      case None => None
      case Some((machine, afterMachine)) =>
        match ReadSeparatedInt(afterMachine)
        case None => None
        case Some((sequence, rest)) =>
          if rest == [] then Some(UniqueId(time, machine, sequence)) else None
  }

  /** Parse succeeds with the three fields its readers return, in order. */
  lemma ParseOfFields(s: string, afterTime: string, afterMachine: string, id: UniqueId)
    requires Decimal.ReadInt(s) == Some((id.hundredNanos, afterTime))
    requires ReadSeparatedInt(afterTime) == Some((id.machineAddress, afterMachine))
    requires ReadSeparatedInt(afterMachine) == Some((id.sequenceNumber, []))
    ensures Parse(s) == Some(id)
  {
  }

  /** A separator followed by a rendered integer reads back as that integer. */
  lemma ReadSeparatedIntToDecimal(n: int, rest: string)
    requires rest == [] || !Decimal.IsDigit(rest[0])
    ensures ReadSeparatedInt("-" + Decimal.IntToDecimal(n) + rest) == Some((n, rest))
  {
    var s := "-" + Decimal.IntToDecimal(n) + rest;
    assert s[1..] == Decimal.IntToDecimal(n) + rest;
    Decimal.ReadIntToDecimal(n, rest);
  }

  /** The three renderings joined by `-` read back as the identifier they came from. */
  lemma ParseToString(id: UniqueId)
    ensures Parse(Decimal.IntToDecimal(id.hundredNanos) + "-"
                  + Decimal.IntToDecimal(id.machineAddress) + "-"
                  + Decimal.IntToDecimal(id.sequenceNumber)) == Some(id)
  {
    var t := Decimal.IntToDecimal(id.hundredNanos);
    var m := Decimal.IntToDecimal(id.machineAddress);
    var q := Decimal.IntToDecimal(id.sequenceNumber);
    var afterMachine := "-" + q + [];
    var afterTime := "-" + m + afterMachine;
    var s := t + "-" + m + "-" + q;
    assert s == t + afterTime;
    assert Decimal.ReadInt(s) == Some((id.hundredNanos, afterTime)) by {
      Decimal.ReadIntToDecimal(id.hundredNanos, afterTime);
    }
    assert ReadSeparatedInt(afterTime) == Some((id.machineAddress, afterMachine)) by {
      ReadSeparatedIntToDecimal(id.machineAddress, afterMachine);
    }
    assert ReadSeparatedInt(afterMachine) == Some((id.sequenceNumber, [])) by {
      ReadSeparatedIntToDecimal(id.sequenceNumber, []);
    }
    ParseOfFields(s, afterTime, afterMachine, id);
  }

  /** The readers' results behind a successful `Parse`: the three fields and the text after each. */
  lemma ParseSteps(s: string) returns (afterTime: string, afterMachine: string)
    requires Parse(s).Some?
    ensures var id := Parse(s).value;
            && Decimal.ReadInt(s) == Some((id.hundredNanos, afterTime))
            && |afterTime| > 0 && afterTime[0] == '-'
            && Decimal.ReadInt(afterTime[1..]) == Some((id.machineAddress, afterMachine))
            && |afterMachine| > 0 && afterMachine[0] == '-'
            && Decimal.ReadInt(afterMachine[1..]) == Some((id.sequenceNumber, []))
  {
    afterTime := Decimal.ReadInt(s).value.1;
    afterMachine := ReadSeparatedInt(afterTime).value.1;
  }

  /** Reassembles a text from its first field, the second field and the third. */
  lemma JoinPieces(s: string, t: string, m: string, q: string, afterTime: string, afterMachine: string)
    requires s == t + afterTime && afterTime == "-" + m + afterMachine && afterMachine == "-" + q
    ensures s == t + "-" + m + "-" + q
  {
  }

  /** A text the integer reader accepts is the rendering it read followed by the rest. */
  lemma ReadIntSplit(s: string, v: int, rest: string)
    requires Decimal.ReadInt(s) == Some((v, rest))
    ensures s == Decimal.IntToDecimal(v) + rest
  {
    Decimal.ReadIntIsRendering(s);
  }

  /** A text the separated reader accepts is `-`, the rendering it read, and the rest. */
  lemma ReadSeparatedIntSplit(s: string, v: int, rest: string)
    requires |s| > 0 && s[0] == '-'
    requires Decimal.ReadInt(s[1..]) == Some((v, rest))
    ensures s == "-" + Decimal.IntToDecimal(v) + rest
  {
    ReadIntSplit(s[1..], v, rest);
    assert s == "-" + s[1..];
  }

  /** Whatever `Parse` accepts is the three renderings of the fields it returns, joined by `-`. */
  lemma ParseIsRendering(s: string)
    requires Parse(s).Some?
    ensures var id := Parse(s).value;
            s == Decimal.IntToDecimal(id.hundredNanos) + "-"
                 + Decimal.IntToDecimal(id.machineAddress) + "-"
                 + Decimal.IntToDecimal(id.sequenceNumber)
  {
    var id := Parse(s).value;
    var afterTime, afterMachine := ParseSteps(s);
    ReadIntSplit(s, id.hundredNanos, afterTime);
    ReadSeparatedIntSplit(afterTime, id.machineAddress, afterMachine);
    ReadSeparatedIntSplit(afterMachine, id.sequenceNumber, []);
    JoinPieces(s, Decimal.IntToDecimal(id.hundredNanos), Decimal.IntToDecimal(id.machineAddress),
               Decimal.IntToDecimal(id.sequenceNumber) + [], afterTime, afterMachine);
  }

  /**
   * `toString`: the three fields in decimal, joined by `-`. The text reads
   * back as the identifier, and it is the only text that does, so it carries
   * no padding or other variation.
   */
  function ToString(id: UniqueId): (s: string)
    ensures Parse(s) == Some(id)
    ensures forall t :: Parse(t) == Some(id) ==> t == s
  {
    ParseToString(id);
    assert forall t :: Parse(t) == Some(id) ==>
      t == Decimal.IntToDecimal(id.hundredNanos) + "-"
           + Decimal.IntToDecimal(id.machineAddress) + "-"
           + Decimal.IntToDecimal(id.sequenceNumber) by {
      forall t | Parse(t) == Some(id) {
        ParseIsRendering(t);
      }
    }
    Decimal.IntToDecimal(id.hundredNanos) + "-"
      + Decimal.IntToDecimal(id.machineAddress) + "-"
      + Decimal.IntToDecimal(id.sequenceNumber)
  }

  /** Reading text back and rendering it again restores the text: `Parse` accepts only `toString` output. */
  lemma ToStringParse(s: string)
    requires Parse(s).Some?
    ensures ToString(Parse(s).value) == s
  {
  }

  /** Distinct identifiers have distinct text forms, so the string is a faithful key. */
  lemma ToStringInjective(a: UniqueId, b: UniqueId)
    requires ToString(a) == ToString(b)
    ensures a == b
  {
    assert Some(a) == Parse(ToString(a)) == Parse(ToString(b)) == Some(b);
  }

  /** The rendering shown in the record's documentation. */
  lemma ToStringExample()
    ensures ToString(UniqueId(1, 2, 3)) == "1-2-3"
  {
  }

  /** Negative fields keep their sign, so a field's `-` and a separator `-` can sit side by side. */
  lemma ToStringNegativeExample()
    ensures ToString(UniqueId(-1, 0, 12)) == "-1-0-12"
  {
    var s := ToString(UniqueId(-1, 0, 12));
    assert s == Decimal.IntToDecimal(-1) + "-" + Decimal.IntToDecimal(0) + "-" + Decimal.IntToDecimal(12);
    assert Decimal.IntToDecimal(-1) == "-1" by {
      assert Decimal.NatToDecimal(1) == "1";
    }
    assert Decimal.IntToDecimal(0) == "0";
    assert Decimal.IntToDecimal(12) == "12" by {
      assert Decimal.NatToDecimal(1) == "1";
    }
  }
}
