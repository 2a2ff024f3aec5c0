/**
 * The host library's helpers in js/src/common.ts: the derivation-path
 * serialiser, the status-code descriptions, and the decoding of the
 * get-version reply.
 */
module HostCommon {
  import opened Wrappers
  import opened Bytes
  import opened Text

  const HARDENED: nat := 0x8000_0000

  // ---------------------------------------------------------------- serializePath

  /** The four ways serializePath throws. */
  datatype PathError = NoLeadingM | WrongComponentCount | NotANumber(child: string) | ChildTooLarge

  const NOT_A_NUMBER_PREFIX: string := "Invalid" + " path : "
  const NOT_A_NUMBER_SUFFIX: string := " is not a number. (e.g \"m/44'/461'/5'/0/3\")"

  /**
   * The message of the Error each failure throws. Each text is written as its
   * first word and the rest, which lets the verifier read its leading characters.
   */
  function Message(e: PathError): string {
    match e
    case NoLeadingM => "Path" + " should start with \"m\" (e.g \"m/44'/5757'/5'/0/3\")"
    case WrongComponentCount => "Invalid" + " path. (e.g \"m/44'/5757'/5'/0/3\")"
    case NotANumber(child) => NOT_A_NUMBER_PREFIX + child + NOT_A_NUMBER_SUFFIX
    case ChildTooLarge => "Incorrect" + " child value (bigger or equal to 0x80000000)"
  }

  /** The message tells the failures apart, and a non-numeric component's message names it behind "Invalid path : ". */
  lemma LemmaMessageIdentifies(a: PathError, b: PathError)
    ensures Message(a) == Message(b) <==> a == b
    ensures a.NotANumber? ==> Message(a)[..15] == NOT_A_NUMBER_PREFIX && Message(a)[15..15 + |a.child|] == a.child
  {
    MessageMarks(a);
    MessageMarks(b);
    if a.NotANumber? && b.NotANumber? {
      NotANumberMessage(a.child);
      NotANumberMessage(b.child);
    }
  }

  /** The kinds of failure are told apart by the first character, the third, and the length. */
  lemma MessageMarks(e: PathError)
    ensures |Message(e)| > 2
    ensures Message(e)[0] == 'P' <==> e.NoLeadingM?
    ensures Message(e)[2] == 'c' <==> e.ChildTooLarge?
    ensures |Message(e)| == 40 <==> e.WrongComponentCount?
  {
    if e.NotANumber? {
      NotANumberMessage(e.child);
    }
  }

  /** The layout of the not-a-number message: a fixed prefix, the component, a fixed suffix. */
  lemma NotANumberMessage(child: string)
    ensures |Message(NotANumber(child))| == 15 + |child| + |NOT_A_NUMBER_SUFFIX|
    ensures Message(NotANumber(child))[..15] == NOT_A_NUMBER_PREFIX
    ensures Message(NotANumber(child))[15..15 + |child|] == child
    ensures Message(NotANumber(child))[0] == 'I' && Message(NotANumber(child))[2] == 'v'
  {
  }

  /** `Number(s)` on the strings this model covers: the empty string is 0, decimal digits their value, anything else NaN. */
  function NumberOf(s: string): (r: Option<nat>)
    ensures AllDigits(s) <==> r.Some?
  {
    if AllDigits(s) then Some(DecimalValue(s)) else None
  }

  /** Whether a component carries the hardened mark `'`. */
  predicate IsMarked(child: string) {
    |child| > 0 && child[|child| - 1] == '\''
  }

  /** One component of the path: its number, plus 0x80000000 when marked. */
  function ParseChild(child: string): (r: Result<u32, PathError>)
    ensures r.Ok? ==> (r.value >= HARDENED <==> IsMarked(child))
    ensures r.Err? ==> r.error == ChildTooLarge || r.error.NotANumber?
  {
    var digits := if IsMarked(child) then child[..|child| - 1] else child;
    match NumberOf(digits)
    case None => Err(NotANumber(digits))
    case Some(n) =>
      if n >= HARDENED then Err(ChildTooLarge)
      else Ok((if IsMarked(child) then HARDENED else 0) + n)
  }

  /** The components in order; the first failing one decides the error. */
  function ParseChildren(children: seq<string>): (r: Result<seq<u32>, PathError>)
    ensures r.Ok? ==> |r.value| == |children|
    decreases |children|
  {
    if children == [] then Ok([])
    else match ParseChildren(children[..|children| - 1])
      case Err(e) => Err(e)
      case Ok(values) => match ParseChild(children[|children| - 1])
        case Err(e) => Err(e)
        case Ok(v) => Ok(values + [v])
  }

  /** What serializePath computes: the five component values, or why it throws. */
  function ParsePath(path: string): (r: Result<seq<u32>, PathError>)
    ensures r.Ok? ==> |r.value| == 5
  {
    if !(|path| > 0 && path[0] == 'm') then Err(NoLeadingM)
    else
      var parts := Split(path, '/');
      if |parts| != 6 then Err(WrongComponentCount)
      else ParseChildren(parts[1..])
  }

  /** The bytes of `values`, each as a 32-bit little-endian word. */
  function EncodePath(values: seq<u32>): (b: seq<byte>)
    ensures |b| == 4 * |values|
    decreases |values|
  {
    if values == [] then [] else EncodePath(values[..|values| - 1]) + EncodeLE32(values[|values| - 1])
  }

  /** Reading word i of the encoding gives back component i. */
  lemma {:induction false} LemmaEncodePathDecodes(values: seq<u32>)
    ensures forall i :: 0 <= i < |values| ==> LE32(EncodePath(values), 4 * i) == values[i]
    decreases |values|
  {
    if values != [] {
      var init := values[..|values| - 1];
      LemmaEncodePathDecodes(init);
      var b := EncodePath(values);
      var last := EncodeLE32(values[|values| - 1]);
      assert b == EncodePath(init) + last;
      forall i | 0 <= i < |values| ensures LE32(b, 4 * i) == values[i] {
        if i < |init| {
          assert LE32(b, 4 * i) == LE32(EncodePath(init), 4 * i);
        } else {
          assert b[4 * i..4 * i + 4] == last;
          assert LE32(b, 4 * i) == LE32(last, 0);
        }
      }
    }
  }

  /** `buf.writeUInt32LE(value, offset)` */
  method WriteUInt32LE(buf: array<byte>, value: u32, offset: nat)
    requires offset + 4 <= buf.Length
    modifies buf
    ensures buf[..] == old(buf[..])[..offset] + EncodeLE32(value) + old(buf[..])[offset + 4..]
  {
    var b := EncodeLE32(value);
    buf[offset] := b[0];
    buf[offset + 1] := b[1];
    buf[offset + 2] := b[2];
    buf[offset + 3] := b[3];
  }

  /** The loop body's parsing of one component, accumulating `value` as serializePath does. */
  method ReadChild(component: string) returns (r: Result<u32, PathError>)
    ensures r == ParseChild(component)
  {
    var value := 0;
    var child := component;
    if |child| > 0 && child[|child| - 1] == '\'' {
      value := value + HARDENED;
      child := child[..|child| - 1];
    }
    var childNumber := NumberOf(child);
    if childNumber.None? {
      return Err(NotANumber(child));
    }
    if childNumber.value >= HARDENED {
      return Err(ChildTooLarge);
    }
    value := value + childNumber.value;
    return Ok(value);
  }

  function Zeros(n: nat): (z: seq<byte>)
    ensures |z| == n
  {
    seq(n, _ => 0)
  }

  /** Writing the next word after the words already written extends the encoding, leaving zeros behind it. */
  lemma LemmaWriteStep(buf: seq<byte>, values: seq<u32>, v: u32, offset: nat)
    requires |values| < 5 && offset == 4 * |values|
    requires buf == EncodePath(values) + Zeros(20 - 4 * |values|)
    ensures buf[..offset] + EncodeLE32(v) + buf[offset + 4..] == EncodePath(values + [v]) + Zeros(20 - 4 * (|values| + 1))
  {
    var n, m := 20 - 4 * |values|, 20 - 4 * (|values| + 1);
    var e, w, z := EncodePath(values), EncodeLE32(v), Zeros(n);
    OverwriteAfter(e, w, z, buf);
    EncodePathSnoc(values, v);
    ZerosDrop(n, m);
    Glue(e, w, z[4..], EncodePath(values + [v]), Zeros(m));
  }

  /** Regroups a concatenation over abstract pieces, so the solver never unfolds the encodings themselves. */
  lemma Glue(e: seq<byte>, w: seq<byte>, z: seq<byte>, e': seq<byte>, z': seq<byte>)
    requires e' == e + w && z' == z
    ensures e + w + z == e' + z'
  {
  }

  /** Overwriting the four bytes right after a prefix, stated over abstract pieces to keep the proof small. */
  lemma OverwriteAfter(e: seq<byte>, w: seq<byte>, z: seq<byte>, buf: seq<byte>)
    requires |w| == 4 && |z| >= 4 && buf == e + z
    ensures buf[..|e|] + w + buf[|e| + 4..] == e + w + z[4..]
  {
    assert buf[..|e|] == e;
    assert buf[|e| + 4..] == z[4..];
  }

  /** One more component appends its little-endian word to the encoding. */
  lemma EncodePathSnoc(values: seq<u32>, v: u32)
    ensures EncodePath(values + [v]) == EncodePath(values) + EncodeLE32(v)
  {
    assert (values + [v])[..|values|] == values;
  }

  /** Dropping four zeros from a run of zeros, kept separate so the run's length stays symbolic elsewhere. */
  lemma ZerosDrop(n: nat, m: nat)
    requires n >= 4 && m == n - 4
    ensures Zeros(n)[4..] == Zeros(m)
  {
  }

  /** serializePath: the 20-byte buffer, or the message of the Error it throws. */
  method SerializePath(path: string) returns (r: Result<seq<byte>, string>)
    ensures r.Ok? <==> ParsePath(path).Ok?
    ensures r.Ok? ==> r.value == EncodePath(ParsePath(path).value) && |r.value| == 20
    ensures r.Err? ==> r.error == Message(ParsePath(path).error)
  {
    if !(|path| > 0 && path[0] == 'm') {
      return Err(Message(NoLeadingM));
    }
    var pathArray := Split(path, '/');
    if |pathArray| != 6 {
      return Err(Message(WrongComponentCount));
    }
    var written := WriteComponents(pathArray[1..]);
    if written.Err? {
      return Err(Message(written.error));
    }
    return Ok(written.value);
  }

  /** The loop of serializePath over the five components `pathArray[1..6]`, writing each into a zeroed 20-byte buffer. */
  method WriteComponents(children: seq<string>) returns (r: Result<seq<byte>, PathError>)
    requires |children| == 5
    ensures r.Ok? <==> ParseChildren(children).Ok?
    ensures r.Ok? ==> r.value == EncodePath(ParseChildren(children).value)
    ensures r.Err? ==> r.error == ParseChildren(children).error
  {
    var buf := new byte[20](_ => 0);
    ghost var values: seq<u32> := [];
    assert buf[..] == EncodePath(values) + Zeros(20);
    assert children[..0] == [];
    for i := 0 to 5
      invariant |values| == i
      invariant ParseChildren(children[..i]) == Ok(values)
      invariant buf[..] == EncodePath(values) + Zeros(20 - 4 * i)
    {
      LemmaNextChild(children, i, values);
      var value := WriteChild(buf, children[i], i, values);
      if value.Err? {
        return Err(value.error);
      }
      values := values + [value.value];
    }
    LemmaAllChildren(children, values);
    return Ok(buf[..]);
  }

  /** One pass of the loop: parse component `k` and, if it is good, write its word after those already written. */
  method WriteChild(buf: array<byte>, child: string, k: nat, ghost values: seq<u32>) returns (r: Result<u32, PathError>)
    requires buf.Length == 20 && k < 5 && |values| == k
    requires buf[..] == EncodePath(values) + Zeros(20 - 4 * k)
    modifies buf
    ensures r == ParseChild(child)
    ensures r.Ok? ==> buf[..] == EncodePath(values + [r.value]) + Zeros(20 - 4 * (k + 1))
  {
    r := ReadChild(child);
    if r.Ok? {
      ghost var before := buf[..];
      WriteUInt32LE(buf, r.value, 4 * k);
      LemmaWriteStep(before, values, r.value, 4 * k);
    }
  }

  /** After the last component the buffer holds the encoding of all of them. */
  lemma LemmaAllChildren(children: seq<string>, values: seq<u32>)
    requires |children| == 5 && ParseChildren(children[..5]) == Ok(values)
    ensures ParseChildren(children) == Ok(values)
    ensures EncodePath(values) + Zeros(20 - 4 * 5) == EncodePath(values)
  {
    assert children[..5] == children;
  }

  /** One more component: either it fails and decides the error of the whole list, or its value is appended. */
  lemma LemmaNextChild(children: seq<string>, k: nat, values: seq<u32>)
    requires k < |children| && ParseChildren(children[..k]) == Ok(values)
    ensures ParseChild(children[k]).Err? ==> ParseChildren(children) == Err(ParseChild(children[k]).error)
    ensures ParseChild(children[k]).Ok? ==> ParseChildren(children[..k + 1]) == Ok(values + [ParseChild(children[k]).value])
  {
    var longer := children[..k + 1];
    assert longer[..k] == children[..k];
    assert longer[k] == children[k];
    if ParseChild(children[k]).Err? {
      ChildrenErrorPersists(children, k + 1);
    }
  }

  /** Once a prefix of the components fails, the whole list fails with the same error. */
  lemma {:induction false} ChildrenErrorPersists(children: seq<string>, k: nat)
    requires k <= |children| && ParseChildren(children[..k]).Err?
    ensures ParseChildren(children) == ParseChildren(children[..k])
    decreases |children| - k
  {
    if k < |children| {
      var longer := children[..k + 1];
      assert longer[..k] == children[..k];
      assert ParseChildren(longer) == ParseChildren(children[..k]);
      ChildrenErrorPersists(children, k + 1);
    } else {
      assert children[..k] == children;
    }
  }

  /** The path is rejected unless it starts with "m" and has exactly six '/'-separated parts. */
  lemma LemmaPathShape(path: string)
    ensures !(|path| > 0 && path[0] == 'm') ==> ParsePath(path) == Err(NoLeadingM)
    ensures |path| > 0 && path[0] == 'm' && |Split(path, '/')| != 6 ==> ParsePath(path) == Err(WrongComponentCount)
    ensures ParsePath(path).Ok? ==> path[0] == 'm' && |Split(path, '/')| == 6
  {
  }

  /** A component is rejected when its number part is not numeric or reaches 0x80000000; otherwise its hardened bit is set exactly when it is marked. */
  lemma LemmaChildValue(child: string)
    ensures var digits := if IsMarked(child) then child[..|child| - 1] else child;
      && (!AllDigits(digits) ==> ParseChild(child) == Err(NotANumber(digits)))
      && (AllDigits(digits) && DecimalValue(digits) >= HARDENED ==> ParseChild(child) == Err(ChildTooLarge))
      && (ParseChild(child).Ok? ==>
            && AllDigits(digits)
            && (ParseChild(child).value >= HARDENED <==> IsMarked(child))
            && ParseChild(child).value % HARDENED == DecimalValue(digits))
  {
  }

  /** Every successful component is in range, and is the parsed value of its part. */
  lemma {:induction false} LemmaChildrenValues(children: seq<string>)
    ensures ParseChildren(children).Ok? <==> forall i :: 0 <= i < |children| ==> ParseChild(children[i]).Ok?
    ensures ParseChildren(children).Ok? ==>
              forall i :: 0 <= i < |children| ==> ParseChildren(children).value[i] == ParseChild(children[i]).value
    decreases |children|
  {
    if children != [] {
      var init := children[..|children| - 1];
      LemmaChildrenValues(init);
      assert forall i :: 0 <= i < |init| ==> init[i] == children[i];
    }
  }

  // ---------------------------------------------------------------- the inverse: printing a path

  /** A path component as a wallet names it: its index and whether it is hardened. */
  datatype Child = Child(index: nat, hardened: bool)
  {
    predicate Valid() { index < HARDENED }
    function Value(): u32 requires Valid() { (if hardened then HARDENED else 0) + index }
  }

  function FormatChild(c: Child): string {
    NatToDecimal(c.index) + (if c.hardened then "'" else "")
  }

  /** `m/a/b/c/d/e` */
  function FormatPath(children: seq<Child>): string {
    Join(["m"] + seq(|children|, i requires 0 <= i < |children| => FormatChild(children[i])), '/')
  }

  lemma LemmaChildRoundTrip(c: Child)
    requires c.Valid()
    ensures ParseChild(FormatChild(c)) == Ok(c.Value())
    ensures '/' !in FormatChild(c)
  {
    var s := FormatChild(c);
    var digits := NatToDecimal(c.index);
    assert IsMarked(s) <==> c.hardened;
    assert (if IsMarked(s) then s[..|s| - 1] else s) == digits;
  }

  /** Printing five components and serializing the result gives their values back. */
  lemma LemmaFormatParseRoundTrip(children: seq<Child>)
    requires |children| == 5
    requires forall i :: 0 <= i < 5 ==> children[i].Valid()
    ensures ParsePath(FormatPath(children)).Ok?
    ensures forall i :: 0 <= i < 5 ==> ParsePath(FormatPath(children)).value[i] == children[i].Value()
  {
    var parts := ["m"] + seq(|children|, i requires 0 <= i < |children| => FormatChild(children[i]));
    forall i | 0 <= i < |children| ensures ParseChild(parts[i + 1]) == Ok(children[i].Value()) && '/' !in parts[i + 1] {
      LemmaChildRoundTrip(children[i]);
    }
    assert forall i :: 0 <= i < |parts| ==> '/' !in parts[i] by {
      forall i | 0 <= i < |parts| ensures '/' !in parts[i] {
        if i > 0 {
          LemmaChildRoundTrip(children[i - 1]);
        }
      }
    }
    LemmaSplitJoin(parts, '/');
    var path := FormatPath(children);
    assert path[0] == 'm' by {
      assert path == "m" + [ '/' ] + Join(parts[1..], '/');
    }
    LemmaChildrenValues(parts[1..]);
  }

  // ---------------------------------------------------------------- errorCodeToString

  /** A status code as the host sees it: a number, or NaN when the reply was too short to hold one. */
  datatype StatusCode = Code(value: int) | NaN

  const ERROR_DESCRIPTION: map<int, string> := map[
    1 := "U2F: Unknown",
    2 := "U2F: Bad request",
    3 := "U2F: Configuration unsupported",
    4 := "U2F: Device Ineligible",
    5 := "U2F: Timeout",
    14 := "Timeout",
    0x9000 := "No errors",
    0x9001 := "Device is busy",
    0x6802 := "Error deriving keys",
    0x6400 := "Execution Error",
    0x6700 := "Wrong Length",
    0x6982 := "Empty Buffer",
    0x6983 := "Output buffer too small",
    0x6984 := "Data is invalid",
    0x6985 := "Conditions not satisfied",
    0x6986 := "Transaction rejected",
    0x6a80 := "Bad key handle",
    0x6b00 := "Invalid P1/P2",
    0x6d00 := "Instruction not supported",
    0x6e00 := "App does not seem to be open",
    0x6f00 := "Unknown error",
    0x6f01 := "Sign/verify error"
  ]

  const UNKNOWN_PREFIX: string := "Unknown Status Code: "

  /** errorCodeToString: the table's description, or the fallback naming the code. */
  function ErrorCodeToString(code: StatusCode): (m: string)
    ensures code.Code? && code.value in ERROR_DESCRIPTION ==> m == ERROR_DESCRIPTION[code.value]
    ensures !(code.Code? && code.value in ERROR_DESCRIPTION) ==> UNKNOWN_PREFIX <= m
  {
    match code
    case Code(n) => if n in ERROR_DESCRIPTION then ERROR_DESCRIPTION[n] else UNKNOWN_PREFIX + IntToString(n)
    case NaN => UNKNOWN_PREFIX + "NaN"
  }

  /** The message is a fallback exactly when the code is not listed, and the fallback names the code unambiguously. */
  lemma LemmaErrorCodeToString(code: StatusCode)
    ensures code.Code? && code.value in ERROR_DESCRIPTION ==> ErrorCodeToString(code) == ERROR_DESCRIPTION[code.value]
    ensures !(code.Code? && code.value in ERROR_DESCRIPTION) <==>
              UNKNOWN_PREFIX <= ErrorCodeToString(code)
  {
    forall k | k in ERROR_DESCRIPTION
      ensures |ERROR_DESCRIPTION[k]| < |UNKNOWN_PREFIX| || ERROR_DESCRIPTION[k][0] != 'U' || ERROR_DESCRIPTION[k][1] != 'n'
    {
    }
  }

  /** Distinct unlisted codes get distinct messages. */
  lemma LemmaUnknownCodesDistinct(a: int, b: int)
    requires a !in ERROR_DESCRIPTION && b !in ERROR_DESCRIPTION
    requires ErrorCodeToString(Code(a)) == ErrorCodeToString(Code(b))
    ensures a == b
  {
    var sa, sb := ErrorCodeToString(Code(a)), ErrorCodeToString(Code(b));
    assert sa[|UNKNOWN_PREFIX|..] == IntToString(a);
    assert sb[|UNKNOWN_PREFIX|..] == IntToString(b);
    LemmaIntToNumeralInjective(a, b, 10);
  }

  // ---------------------------------------------------------------- getVersion

  /** What getVersion resolves to; an absent byte (JavaScript undefined) is None. */
  datatype Version = Version(
    returnCode: StatusCode,
    errorMessage: string,
    testMode: bool,
    major: Option<byte>,
    minor: Option<byte>,
    patch: Option<byte>,
    deviceLocked: bool,
    targetId: string)

  function ByteAt(r: seq<byte>, i: nat): Option<byte> {
    if i < |r| then Some(r[i]) else None
  }

  /** The big-endian status word in the last two bytes, NaN when there are fewer than two. */
  function ReturnCode(r: seq<byte>): (c: StatusCode)
    ensures |r| >= 2 ==> c == Code(BE16(r, |r| - 2))
    ensures |r| < 2 <==> c == NaN
  {
    var errorCodeData := r[if |r| >= 2 then |r| - 2 else 0..];
    if |errorCodeData| < 2 then NaN else Code((errorCodeData[0] as int) * 256 + (errorCodeData[1] as int))
  }

  /** As written: `(r[5] << 24) + ...` goes through JavaScript's signed 32-bit shift. */
  function TargetIdAsWritten(r: seq<byte>): (t: int)
    ensures -0x8000_0000 <= t < 0x8000_0000
    ensures t % 0x1_0000_0000 == TargetId(r)
  {
    if |r| >= 9 then
      var high := (r[5] as int) * 0x100_0000;
      (if high >= 0x8000_0000 then high - 0x1_0000_0000 else high) + (r[6] as int) * 0x1_0000 + (r[7] as int) * 0x100 + (r[8] as int)
    else 0
  }

  /** As intended: bytes 5..8 big-endian, 0 for a shorter reply. */
  function TargetId(r: seq<byte>): (t: u32)
    ensures |r| >= 9 ==> t == BE32(r, 5)
    ensures |r| < 9 ==> t == 0
  {
    if |r| >= 9 then BE32(r, 5) else 0
  }

  /** The two agree exactly when byte 5 is below 0x80; otherwise the as-written id is negative. */
  lemma LemmaTargetIdSign(r: seq<byte>)
    ensures TargetIdAsWritten(r) == TargetId(r) <==> |r| < 9 || r[5] < 0x80
    ensures |r| >= 9 && r[5] >= 0x80 ==> TargetIdAsWritten(r) < 0 && TargetIdAsWritten(r) == TargetId(r) - 0x1_0000_0000
  {
  }

  /** A reply with a target id of 0x80000000 is reported as "-80000000". */
  lemma LemmaTargetIdCounterexample()
    ensures var r := [0, 1, 2, 3, 0, 0x80, 0, 0, 0, 0x90, 0x00];
      && IntToNumeral(TargetIdAsWritten(r), 16) == "-80000000"
      && IntToNumeral(TargetId(r), 16) == "80000000"
  {
    var r: seq<byte> := [0, 1, 2, 3, 0, 0x80, 0, 0, 0, 0x90, 0x00];
    assert TargetIdAsWritten(r) == -0x8000_0000;
    assert Numeral(8, 16) == "8";
    HexShift(8, "8");
    HexShift(0x80, "80");
    HexShift(0x800, "800");
    HexShift(0x8000, "8000");
    HexShift(0x8_0000, "80000");
    HexShift(0x80_0000, "800000");
    HexShift(0x800_0000, "8000000");
  }

  /** Multiplying by 16 appends a 0 to a hexadecimal numeral. */
  lemma HexShift(n: nat, s: string)
    requires n >= 1 && Numeral(n, 16) == s
    ensures Numeral(16 * n, 16) == s + "0"
  {
    assert (16 * n) / 16 == n && (16 * n) % 16 == 0;
  }

  /** getVersion's decoding of the reply, with the target id read unsigned. */
  function DecodeVersion(r: seq<byte>): (v: Version)
    ensures v.returnCode == ReturnCode(r) && v.errorMessage == ErrorCodeToString(v.returnCode)
    ensures AllDigitsOf(v.targetId, 16) && NumeralValue(v.targetId, 16) == TargetId(r)
  {
    LemmaNumeralRoundTrip(TargetId(r), 16);
    var returnCode := ReturnCode(r);
    Version(
      returnCode,
      ErrorCodeToString(returnCode),
      |r| == 0 || r[0] != 0,
      ByteAt(r, 1),
      ByteAt(r, 2),
      ByteAt(r, 3),
      |r| > 4 && r[4] == 1,
      IntToNumeral(TargetId(r), 16))
  }

  /** The reply layout getVersion reads: flags and version bytes, the target id, then the status word. */
  function VersionReply(testMode: bool, major: byte, minor: byte, patch: byte, locked: bool, targetId: u32, sw: u16): (r: seq<byte>)
    ensures |r| == 11
  {
    [if testMode then 1 else 0, major, minor, patch, if locked then 1 else 0] + EncodeBE32(targetId) + EncodeBE16(sw)
  }

  /** Decoding a well-formed reply recovers every field it carries. */
  lemma LemmaVersionRoundTrip(testMode: bool, major: byte, minor: byte, patch: byte, locked: bool, targetId: u32, sw: u16)
    ensures var v := DecodeVersion(VersionReply(testMode, major, minor, patch, locked, targetId, sw));
      && v.returnCode == Code(sw)
      && v.errorMessage == ErrorCodeToString(Code(sw))
      && v.testMode == testMode
      && v.major == Some(major) && v.minor == Some(minor) && v.patch == Some(patch)
      && v.deviceLocked == locked
      && NumeralValue(v.targetId, 16) == targetId
  {
    var r := VersionReply(testMode, major, minor, patch, locked, targetId, sw);
    assert r[5..9] == EncodeBE32(targetId);
    assert BE32(r, 5) == BE32(EncodeBE32(targetId), 0);
    assert r[9..] == EncodeBE16(sw);
    assert BE16(r, 9) == BE16(EncodeBE16(sw), 0);
    LemmaNumeralRoundTrip(targetId, 16);
  }

  /** A reply too short for a status word is reported as NaN with the fallback message. */
  lemma LemmaShortReply(r: seq<byte>)
    requires |r| < 2
    ensures DecodeVersion(r).returnCode == NaN
    ensures DecodeVersion(r).errorMessage == "Unknown Status Code: NaN"
    ensures DecodeVersion(r).targetId == "0"
  {
  }
}
