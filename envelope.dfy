/**
 The envelope stored in the bucket: a gzip-compressed tar archive whose first
 entry, "header", holds the JSON text `{"version":1}` and whose second entry,
 "data", holds the file's bytes with its permission bits. The model keeps the
 logical entry sequence; a blob that gzip cannot open is `Garbled`.
 */
module Envelope {
  import opened Text
  import opened Failures

  /** The only envelope version this program writes and accepts. */
  const Version: int := 1

  /** Permission bits of the "header" entry (0600). */
  const HeaderEntryMode: nat := 0x180

  const MinInt64: int := -0x8000_0000_0000_0000
  const MaxInt64: int := 0x7fff_ffff_ffff_ffff

  datatype Entry = Entry(name: string, mode: nat, body: Bytes)

  datatype Blob = Archive(entries: seq<Entry>) | Garbled

  // ---------------------------------------------------------------------------
  // The header's JSON text

  /** The bytes of `{"version":`. */
  const VersionPrefix: Bytes := [123, 34, 118, 101, 114, 115, 105, 111, 110, 34, 58]
  const CloseBrace: byte := 125
  const Minus: byte := 45

  predicate IsDigit(b: byte) {
    48 <= b <= 57
  }

  predicate AllDigits(b: Bytes) {
    forall i :: 0 <= i < |b| ==> IsDigit(b[i])
  }

  /** A JSON integer literal without sign: no leading zero unless it is "0". */
  predicate IsNatLiteral(b: Bytes) {
    |b| >= 1 && AllDigits(b) && (b[0] == 48 ==> |b| == 1)
  }

  /** Decimal digits of `n` as json.Marshal writes them. */
  function Decimal(n: nat): (b: Bytes)
    ensures IsNatLiteral(b)
  {
    if n < 10 then [(48 + n) as byte]
    else Decimal(n / 10) + [(48 + n % 10) as byte]
  }

  /** The value of a string of decimal digits. */
  function DigitsValue(b: Bytes): (n: nat)
    requires AllDigits(b)
    ensures |b| == 1 ==> n == b[0] as int - 48
  {
    if b == [] then 0
    else DigitsValue(b[..|b| - 1]) * 10 + (b[|b| - 1] as int - 48)
  }

  /** Reading back the digits of `n` gives `n`. */
  lemma {:induction false} DigitsValueDecimal(n: nat)
    ensures DigitsValue(Decimal(n)) == n
  {
    if n >= 10 {
      var d := Decimal(n);
      assert d[..|d| - 1] == Decimal(n / 10);
      DigitsValueDecimal(n / 10);
    }
  }

  /** The JSON text of an integer, with a leading '-' when negative. */
  function IntText(v: int): (b: Bytes)
    ensures |b| >= 1
  {
    if v < 0 then [Minus] + Decimal(-v) else Decimal(v)
  }

  /** The value of a JSON integer literal; None for anything else. */
  function ParseInt(b: Bytes): (r: Option<int>)
    ensures r.Some? ==> (IsNatLiteral(b) || (|b| >= 2 && b[0] == Minus && IsNatLiteral(b[1..])))
  {
    if IsNatLiteral(b) then Some(DigitsValue(b))
    else if |b| >= 2 && b[0] == Minus && IsNatLiteral(b[1..]) then Some(-(DigitsValue(b[1..]) as int))
    else None
  }

  lemma ParseIntText(v: int)
    ensures ParseInt(IntText(v)) == Some(v)
  {
    if v < 0 {
      assert IntText(v)[1..] == Decimal(-v);
      DigitsValueDecimal(-v);
    } else {
      DigitsValueDecimal(v);
    }
  }

  /** json.Marshal(Header{Version: v}). */
  function EncodeHeader(v: int): (b: Bytes)
    ensures |b| > |VersionPrefix|
  {
    VersionPrefix + IntText(v) + [CloseBrace]
  }

  /** json.Unmarshal into a Header: the version of a `{"version":N}` text, with N
      a JSON integer that fits Go's 64-bit int; None when unmarshalling fails. */
  function DecodeHeader(b: Bytes): (r: Option<int>)
    ensures r.Some? ==> MinInt64 <= r.value <= MaxInt64
  {
    if |b| > |VersionPrefix| && b[..|VersionPrefix|] == VersionPrefix && b[|b| - 1] == CloseBrace then
      match ParseInt(b[|VersionPrefix|..|b| - 1])
      case Some(v) => if MinInt64 <= v <= MaxInt64 then Some(v) else None
      case None => None
    else None
  }

  /** Decoding the header that json.Marshal wrote gives back its version. */
  lemma DecodeEncodeHeader(v: int)
    requires MinInt64 <= v <= MaxInt64
    ensures DecodeHeader(EncodeHeader(v)) == Some(v)
  {
    var b := EncodeHeader(v);
    assert b[..|VersionPrefix|] == VersionPrefix;
    assert b[|VersionPrefix|..|b| - 1] == IntText(v);
    ParseIntText(v);
  }

  // ---------------------------------------------------------------------------
  // Packing and unpacking

  /** What Put uploads: a "header" entry (mode 0600, the current version) followed
      by a "data" entry carrying the file's bytes and mode. */
  function Pack(data: Bytes, mode: nat): (b: Blob)
    ensures b.Archive? && |b.entries| == 2
    ensures b.entries[0].name == "header" && b.entries[1] == Entry("data", mode, data)
  {
    Archive([Entry("header", HeaderEntryMode, EncodeHeader(Version)), Entry("data", mode, data)])
  }

  /** The outcome of Get's reading of an envelope. */
  datatype Unpacked =
    | Payload(data: Bytes, mode: nat)   // every check passed
    | Unsupported(version: int)         // the header names another version
    | Rejected(error: Error)            // the blob is not a well-formed envelope

  /** The header entry of a blob, when its first entry is named "header". */
  predicate HasHeaderFirst(b: Blob) {
    b.Archive? && |b.entries| >= 1 && b.entries[0].name == "header"
  }

  /** Get's checks, in its order: gzip, a first entry, its name "header", its JSON,
      its version, a second entry, its name "data". Only an envelope that passes
      all of them yields the data entry's bytes and mode. */
  function Unpack(b: Blob): (u: Unpacked)
    ensures u.Payload? <==>
      HasHeaderFirst(b) && DecodeHeader(b.entries[0].body) == Some(Version)
      && |b.entries| >= 2 && b.entries[1].name == "data"
    ensures u.Payload? ==> u == Payload(b.entries[1].body, b.entries[1].mode)
    ensures u.Unsupported? <==>
      HasHeaderFirst(b) && DecodeHeader(b.entries[0].body).Some?
      && DecodeHeader(b.entries[0].body).value != Version
    ensures u.Unsupported? ==> u.version == DecodeHeader(b.entries[0].body).value
    ensures !HasHeaderFirst(b) ==> u.Rejected?
  {
    match b
    case Garbled => Rejected(NotGzip)
    case Archive(es) =>
      if |es| == 0 then Rejected(MissingEntry)
      else if es[0].name != "header" then Rejected(NoHeaderEntry)
      else match DecodeHeader(es[0].body)
        case None => Rejected(HeaderNotJson)
        case Some(v) =>
          if v != Version then Unsupported(v)
          else if |es| < 2 then Rejected(MissingEntry)
          else if es[1].name != "data" then Rejected(NoDataEntry)
          else Payload(es[1].body, es[1].mode)
  }

  /** Unpacking what Pack produced passes every check and returns exactly the
      packed bytes and mode, the empty file included. */
  lemma UnpackPack(data: Bytes, mode: nat)
    ensures Unpack(Pack(data, mode)) == Payload(data, mode)
  {
    DecodeEncodeHeader(Version);
  }

  /** An envelope whose entries come in the wrong order fails the first check. */
  lemma SwappedEntriesRejected(data: Bytes, mode: nat)
    ensures Unpack(Archive([Pack(data, mode).entries[1], Pack(data, mode).entries[0]]))
      == Rejected(NoHeaderEntry)
  {
  }

  /** A header of another version stops the reading before the second entry is
      looked at, whatever follows it. */
  lemma OtherVersionStopsBeforeData(v: int, rest: seq<Entry>)
    requires MinInt64 <= v <= MaxInt64 && v != Version
    ensures Unpack(Archive([Entry("header", HeaderEntryMode, EncodeHeader(v))] + rest))
      == Unsupported(v)
  {
    DecodeEncodeHeader(v);
  }

  /** A well-framed envelope whose second entry is not "data" is rejected. */
  lemma SecondEntryMustBeData(e: Entry, data: Bytes, mode: nat)
    requires e.name != "data"
    ensures Unpack(Archive([Pack(data, mode).entries[0], e])) == Rejected(NoDataEntry)
  {
    DecodeEncodeHeader(Version);
  }
}
