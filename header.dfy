/** The 100-byte database header of the SQLite file format (src/header.rs):
    the typed record, the field validators, the raw-integer converters and
    the assembler that reads the fixed offsets in order. */
module Header {
  import opened Wrappers
  import opened Lib
  import opened Errors

  /** "SQLite format 3" followed by a zero byte. */
  const HEADER_STRING: seq<u8> :=
    [83, 81, 76, 105, 116, 101, 32, 102, 111, 114, 109, 97, 116, 32, 51, 0]

  /** The magic string is the ASCII text "SQLite format 3" and a zero byte. */
  lemma HeaderStringSpellsFormat3()
    ensures |HEADER_STRING| == 16 && HEADER_STRING[15] == 0
    ensures forall i :: 0 <= i < 15 ==> HEADER_STRING[i] == "SQLite format 3"[i] as int
  {
  }

  /** `NonZeroU32`. */
  type NonZeroU32 = x: u32 | x != 0 witness 1

  /** `NonZeroU32::new`: zero has no non-zero representation. */
  function NonZeroNew(v: u32): (r: Option<NonZeroU32>)
    ensures r.None? <==> v == 0
    ensures r.Some? ==> r.value == v
  {
    if v == 0 then None else Some(v)
  }

  // ---------------------------------------------------------------------
  // Records and enumerations

  /** A page size in bytes, never the raw field value. */
  datatype PageSize = PageSize(bytes: u32)

  /** Write or read format version: the journal mode. */
  datatype FormatVersion = Legacy | WriteAheadLog | Unknown(raw: u8)

  datatype FreePageListInfo = FreePageListInfo(startPage: NonZeroU32, length: u32)

  /** Schema format number. */
  datatype SchemaVersion = One | Two | Three | Four | Unknown(raw: NonZeroU32)

  /** Auto-vacuum setting: only the full mode exists, carrying the largest
      root page. */
  datatype VacuumSetting = Full(largestRootPage: NonZeroU32)

  datatype TextEncoding = Utf8 | Utf16Le | Utf16Be | Unknown(raw: u32)

  datatype DatabaseHeader = DatabaseHeader(
    pageSize: PageSize,
    writeVersion: FormatVersion,
    readVersion: FormatVersion,
    reservedBytes: u8,
    changeCounter: u32,
    databaseSize: Option<NonZeroU32>,
    freePageListInfo: Option<FreePageListInfo>,
    schemaCookie: u32,
    schemaVersion: SchemaVersion,
    cacheSize: u32,
    vacuumSetting: Option<VacuumSetting>,
    textEncoding: TextEncoding,
    userVersion: i32,
    applicationId: u32,
    versionValidFor: u32,
    libraryWriteVersion: u32)

  // ---------------------------------------------------------------------
  // Powers of two

  function Pow2(k: nat): (r: nat)
    ensures r >= 1
  {
    if k == 0 then 1 else 2 * Pow2(k - 1)
  }

  /** `u16::is_power_of_two` on its argument as a natural number. */
  predicate IsPowerOfTwo(n: nat)
  {
    n == 1 || (n > 1 && n % 2 == 0 && IsPowerOfTwo(n / 2))
  }

  /** The number of times a power of two halves down to 1. */
  function Log2(n: nat): nat
    requires IsPowerOfTwo(n)
  {
    if n == 1 then 0 else 1 + Log2(n / 2)
  }

  lemma {:induction false} PowerOfTwoIsPow2(n: nat)
    requires IsPowerOfTwo(n)
    ensures n == Pow2(Log2(n))
  {
    if n != 1 {
      PowerOfTwoIsPow2(n / 2);
    }
  }

  lemma {:induction false} Pow2IsPowerOfTwo(k: nat)
    ensures IsPowerOfTwo(Pow2(k))
  {
    if k > 0 {
      Pow2IsPowerOfTwo(k - 1);
      assert Pow2(k) / 2 == Pow2(k - 1);
    }
  }

  /** The recursive test agrees with the reference "n is 2 to some power". */
  lemma PowerOfTwoIffPow2(n: nat)
    ensures IsPowerOfTwo(n) <==> exists k: nat :: n == Pow2(k)
  {
    if IsPowerOfTwo(n) {
      PowerOfTwoIsPow2(n);
    }
    if exists k: nat :: n == Pow2(k) {
      var k: nat :| n == Pow2(k);
      Pow2IsPowerOfTwo(k);
    }
  }

  lemma {:induction false} Pow2Monotone(i: nat, j: nat)
    requires i < j
    ensures Pow2(i) < Pow2(j)
  {
    if i + 1 < j {
      Pow2Monotone(i, j - 1);
    }
  }

  // ---------------------------------------------------------------------
  // Field validators

  /** `validate_header_string`: the first 16 bytes must be the magic string;
      otherwise the error carries the offending bytes. */
  function ValidateHeaderString(bytes: seq<u8>): (r: Result<(), Error>)
    requires |bytes| >= 16
    ensures r.Ok? <==> forall i :: 0 <= i < 16 ==> bytes[i] == HEADER_STRING[i]
    ensures r.Err? ==> r.error == HeaderString(bytes)
  {
    if bytes[0..16] != HEADER_STRING then Err(HeaderString(bytes)) else Ok(())
  }

  /** `PageSize::try_from(u16)`. */
  function PageSizeTryFrom(v: u16): (r: Result<PageSize, Error>)
    ensures r.Ok? <==> v == 1 || (v >= 512 && IsPowerOfTwo(v))
    ensures r.Ok? ==> r.value.bytes == if v == 1 then 65536 else v
    ensures r.Err? ==> r.error == InvalidPageSize(if v < 512 then BelowMinimum(v) else NotPowerOfTwo(v))
  {
    if v == 1 then Ok(PageSize(65536))
    else if v == 0 || 2 <= v <= 511 then Err(InvalidPageSize(BelowMinimum(v)))
    else if IsPowerOfTwo(v) then Ok(PageSize(v))
    else Err(InvalidPageSize(NotPowerOfTwo(v)))
  }

  /** Every page size the decoder accepts is 2^k for some k in 9..16, that is
      a power of two in [512, 65536]. */
  lemma AcceptedPageSizeIsPowerOfTwo(v: u16)
    requires PageSizeTryFrom(v).Ok?
    ensures var size := PageSizeTryFrom(v).value.bytes;
      512 <= size <= 65536 && exists k: nat :: 9 <= k <= 16 && size == Pow2(k)
  {
    var size := PageSizeTryFrom(v).value.bytes;
    assert Pow2(9) == 512 by { Pow2Value(9); }
    assert Pow2(16) == 65536 by { Pow2Value(16); }
    if v == 1 {
      assert size == Pow2(16);
    } else {
      PowerOfTwoIsPow2(size);
      var k := Log2(size);
      if k < 9 {
        Pow2Monotone(k, 9);
      }
      if k > 16 {
        Pow2Monotone(16, k);
      }
      assert 9 <= k <= 16 && size == Pow2(k);
    }
  }

  /** Pow2 unfolded for small constants. */
  lemma {:induction false} Pow2Value(k: nat)
    requires k <= 16
    ensures Pow2(k) == [1, 2, 4, 8, 16, 32, 64, 128, 256, 512, 1024, 2048, 4096,
                        8192, 16384, 32768, 65536][k]
  {
    if k > 0 {
      Pow2Value(k - 1);
    }
  }

  /** `parse_page_size`: a 2-byte slice read as a big-endian u16 and then
      validated; any other length is rejected. */
  function ParsePageSize(bytes: seq<u8>): (r: Result<PageSize, Error>)
    ensures |bytes| != 2 ==> r == Err(InvalidPageSize(WrongSliceLength(bytes)))
    ensures |bytes| == 2 ==> BeValue(bytes) < 0x1_0000 && r == PageSizeTryFrom(BeValue(bytes))
  {
    if |bytes| != 2 then Err(InvalidPageSize(WrongSliceLength(bytes)))
    else PageSizeTryFrom(U16FromBeBytes(bytes))
  }

  /** `validate_fraction`: the byte must equal its fixed target. */
  function ValidateFraction(byte: u8, target: u8, field: FractionField): (r: Result<(), Error>)
    ensures r.Ok? <==> byte == target
    ensures r.Err? ==> r.error == InvalidFraction(field, target, byte)
  {
    if byte != target then Err(InvalidFraction(field, target, byte)) else Ok(())
  }

  /** `validate_reserved_zeros`: scan for the first non-zero byte and report
      its index within the span. */
  method ValidateReservedZeros(bytes: seq<u8>) returns (r: Result<(), Error>)
    ensures r.Ok? <==> forall i :: 0 <= i < |bytes| ==> bytes[i] == 0
    ensures r.Err? ==>
      (&& r.error.UnexpectedNonZero? && r.error.index < |bytes|
       && bytes[r.error.index] != 0
       && forall j :: 0 <= j < r.error.index ==> bytes[j] == 0)
  {
    for i := 0 to |bytes|
      invariant forall j :: 0 <= j < i ==> bytes[j] == 0
    {
      if bytes[i] != 0 {
        return Err(UnexpectedNonZero(i));
      }
    }
    return Ok(());
  }

  // ---------------------------------------------------------------------
  // Raw-integer converters and the raw values a writer stores

  /** `FormatVersion::from(u8)`: total, and no raw byte is lost. */
  function FormatVersionFrom(v: u8): (r: FormatVersion)
    ensures FormatVersionByte(r) == v
    ensures r.Unknown? <==> v != 1 && v != 2
  {
    match v
    case 1 => Legacy
    case 2 => WriteAheadLog
    case _ => FormatVersion.Unknown(v)
  }

  function FormatVersionByte(f: FormatVersion): u8
  {
    match f
    case Legacy => 1
    case WriteAheadLog => 2
    case Unknown(v) => v
  }

  /** Every version the decoder can produce is recovered from its stored byte. */
  lemma FormatVersionRoundTrip(f: FormatVersion)
    requires f.Unknown? ==> f.raw != 1 && f.raw != 2
    ensures FormatVersionFrom(FormatVersionByte(f)) == f
  {
  }

  /** `SchemaVersion::try_from(u32)`: zero is the only rejected value. */
  function SchemaVersionTryFrom(v: u32): (r: Result<SchemaVersion, Error>)
    ensures r.Err? <==> v == 0
    ensures r.Err? ==> r.error == UnexpectedZero
    ensures r.Ok? ==> SchemaVersionRaw(r.value) == v
    ensures r.Ok? ==> (r.value.Unknown? <==> v > 4)
  {
    match v
    case 1 => Ok(One)
    case 2 => Ok(Two)
    case 3 => Ok(Three)
    case 4 => Ok(Four)
    case _ =>
      match NonZeroNew(v)
      case None => Err(UnexpectedZero)
      case Some(value) => Ok(SchemaVersion.Unknown(value))
  }

  function SchemaVersionRaw(s: SchemaVersion): (r: NonZeroU32)
  {
    match s
    case One => 1
    case Two => 2
    case Three => 3
    case Four => 4
    case Unknown(v) => v
  }

  lemma SchemaVersionRoundTrip(s: SchemaVersion)
    requires s.Unknown? ==> s.raw > 4
    ensures SchemaVersionTryFrom(SchemaVersionRaw(s)) == Ok(s)
  {
  }

  /** `TextEncoding::try_from(u32)`: never fails, and no raw value is lost. */
  function TextEncodingTryFrom(v: u32): (r: Result<TextEncoding, Error>)
    ensures r.Ok?
    ensures TextEncodingRaw(r.value) == v
    ensures r.value.Unknown? <==> v == 0 || v > 3
  {
    match v
    case 1 => Ok(Utf8)
    case 2 => Ok(Utf16Le)
    case 3 => Ok(Utf16Be)
    case _ => Ok(TextEncoding.Unknown(v))
  }

  function TextEncodingRaw(t: TextEncoding): u32
  {
    match t
    case Utf8 => 1
    case Utf16Le => 2
    case Utf16Be => 3
    case Unknown(v) => v
  }

  lemma TextEncodingRoundTrip(t: TextEncoding)
    requires t.Unknown? ==> t.raw == 0 || t.raw > 3
    ensures TextEncodingTryFrom(TextEncodingRaw(t)) == Ok(t)
  {
  }

  /** `FreePageListInfo::new`: no list when the first free page is 0. */
  function FreePageListInfoNew(startPage: u32, length: u32): (r: Option<FreePageListInfo>)
    ensures r.None? <==> startPage == 0
    ensures r.Some? ==> r.value.startPage == startPage && r.value.length == length
  {
    match NonZeroNew(startPage)
    case None => None
    case Some(start) => Some(FreePageListInfo(start, length))
  }

  /** `VacuumSetting::full`: no setting when the raw value is 0. */
  function VacuumSettingFull(v: u32): (r: Option<VacuumSetting>)
    ensures r.None? <==> v == 0
    ensures r.Some? ==> r.value == Full(v)
  {
    match NonZeroNew(v)
    case None => None
    case Some(n) => Some(Full(n))
  }

  // ---------------------------------------------------------------------
  // The assembler

  /** The big-endian u32 at `offset`. */
  function U32At(bytes: seq<u8>, offset: nat): nat
    requires offset + 4 <= |bytes|
  {
    BeValue(bytes[offset..offset + 4])
  }

  /** The raw page-size field at offset 16. */
  function RawPageSize(bytes: seq<u8>): u16
    requires 18 <= |bytes|
  {
    U16FromBeBytes(bytes[16..18])
  }

  /** The source slices and indexes its input without a length check; a
      slice past the end panics. This holds exactly when every access it
      reaches is in bounds: a failed check returns before any later access. */
  predicate StaysInBounds(bytes: seq<u8>)
  {
    && 16 <= |bytes|
    && (bytes[..16] == HEADER_STRING ==> 18 <= |bytes|)
    && (bytes[..16] == HEADER_STRING && ParsePageSize(bytes[16..18]).Ok? ==> 22 <= |bytes|)
    && (bytes[..16] == HEADER_STRING && ParsePageSize(bytes[16..18]).Ok? && bytes[21] == 64 ==> 23 <= |bytes|)
    && ((bytes[..16] == HEADER_STRING && ParsePageSize(bytes[16..18]).Ok? && bytes[21] == 64
        && bytes[22] == 32)
       ==> 24 <= |bytes|)
    && ((bytes[..16] == HEADER_STRING && ParsePageSize(bytes[16..18]).Ok? && bytes[21] == 64
        && bytes[22] == 32 && bytes[23] == 32)
       ==> 48 <= |bytes|)
    && ((bytes[..16] == HEADER_STRING && ParsePageSize(bytes[16..18]).Ok? && bytes[21] == 64
        && bytes[22] == 32 && bytes[23] == 32 && U32At(bytes, 44) != 0)
       ==> 100 <= |bytes|)
  }

  /** Given the whole 100-byte header, the decoder never indexes out of bounds. */
  lemma FullHeaderStaysInBounds(bytes: seq<u8>)
    requires 100 <= |bytes|
    ensures StaysInBounds(bytes)
  {
  }

  /** A truncated input whose checks all pass reaches a slice past its end:
      the source panics instead of returning an error. */
  lemma TruncatedValidPrefixPanics(bytes: seq<u8>)
    requires 48 <= |bytes| < 100
    requires bytes[..16] == HEADER_STRING && ParsePageSize(bytes[16..18]).Ok?
    requires bytes[21] == 64 && bytes[22] == 32 && bytes[23] == 32 && U32At(bytes, 44) != 0
    ensures !StaysInBounds(bytes)
  {
  }

  /** The checks that must pass for a header to be accepted; bytes 68..92
      play no part. */
  predicate Accepted(bytes: seq<u8>)
  {
    100 <= |bytes| && bytes[..16] == HEADER_STRING &&
    (RawPageSize(bytes) == 1 || (512 <= RawPageSize(bytes) && IsPowerOfTwo(RawPageSize(bytes)))) &&
    bytes[21] == 64 && bytes[22] == 32 && bytes[23] == 32 &&
    U32At(bytes, 44) != 0
  }

  /** `parse_header`: reads the fixed offsets in order and stops at the
      first fatal error. A non-zero byte in 68..92 is not fatal; it comes
      back as `reserved`, the finding the source prints to stderr. */
  method ParseHeader(bytes: seq<u8>) returns (r: Result<DatabaseHeader, Error>, reserved: Option<Error>)
    requires StaysInBounds(bytes)
    // The order of the fatal checks.
    ensures bytes[..16] != HEADER_STRING ==> r == Err(HeaderString(bytes[..16]))
    ensures bytes[..16] == HEADER_STRING && RawPageSize(bytes) != 1 && RawPageSize(bytes) < 512 ==>
      r == Err(InvalidPageSize(BelowMinimum(RawPageSize(bytes))))
    ensures bytes[..16] == HEADER_STRING && 512 <= RawPageSize(bytes) && !IsPowerOfTwo(RawPageSize(bytes)) ==>
      r == Err(InvalidPageSize(NotPowerOfTwo(RawPageSize(bytes))))
    ensures bytes[..16] == HEADER_STRING && ParsePageSize(bytes[16..18]).Ok? && bytes[21] != 64 ==>
      r == Err(InvalidFraction(MaximumPayload, 64, bytes[21]))
    ensures bytes[..16] == HEADER_STRING && ParsePageSize(bytes[16..18]).Ok? && bytes[21] == 64 && bytes[22] != 32 ==>
      r == Err(InvalidFraction(MinimumPayload, 32, bytes[22]))
    ensures (bytes[..16] == HEADER_STRING && ParsePageSize(bytes[16..18]).Ok? && bytes[21] == 64 && bytes[22] == 32
             && bytes[23] != 32) ==>
      r == Err(InvalidFraction(Leaf, 32, bytes[23]))
    ensures (bytes[..16] == HEADER_STRING && ParsePageSize(bytes[16..18]).Ok? && bytes[21] == 64 && bytes[22] == 32
             && bytes[23] == 32 && U32At(bytes, 44) == 0) ==>
      r == Err(UnexpectedZero)
    // Success exactly when every fatal check passes.
    ensures r.Ok? <==> Accepted(bytes)
    // Each field is the decode of its fixed offset.
    ensures r.Ok? ==> var h := r.value;
      && h.pageSize.bytes == (if RawPageSize(bytes) == 1 then 65536 else RawPageSize(bytes))
      && h.writeVersion == FormatVersionFrom(bytes[18])
      && h.readVersion == FormatVersionFrom(bytes[19])
      && h.reservedBytes == bytes[20]
      && h.changeCounter == U32At(bytes, 24)
      && (h.databaseSize.None? <==> U32At(bytes, 28) == 0)
      && (h.databaseSize.Some? ==> h.databaseSize.value == U32At(bytes, 28))
      && (h.freePageListInfo.None? <==> U32At(bytes, 32) == 0)
      && (h.freePageListInfo.Some? ==>
            h.freePageListInfo.value.startPage == U32At(bytes, 32) && h.freePageListInfo.value.length == U32At(bytes, 36))
      && h.schemaCookie == U32At(bytes, 40)
      && SchemaVersionRaw(h.schemaVersion) == U32At(bytes, 44)
      && (h.schemaVersion.Unknown? <==> U32At(bytes, 44) > 4)
      && h.cacheSize == U32At(bytes, 48)
      && (h.vacuumSetting.None? <==> U32At(bytes, 52) == 0)
      && (h.vacuumSetting.Some? ==> h.vacuumSetting.value.largestRootPage == U32At(bytes, 52))
      && TextEncodingRaw(h.textEncoding) == U32At(bytes, 56)
      && (h.textEncoding.Unknown? <==> U32At(bytes, 56) == 0 || U32At(bytes, 56) > 3)
      && (h.userVersion - U32At(bytes, 60)) % 0x1_0000_0000 == 0
      && h.applicationId == U32At(bytes, 64)
      && h.versionValidFor == U32At(bytes, 92)
      && h.libraryWriteVersion == U32At(bytes, 96)
    // The reserved-zero finding.
    ensures r.Err? ==> reserved.None?
    ensures r.Ok? ==> (reserved.None? <==> forall i :: 68 <= i < 92 ==> bytes[i] == 0)
    ensures reserved.Some? ==>
      (&& reserved.value.UnexpectedNonZero? && reserved.value.index < 24
       && bytes[68 + reserved.value.index] != 0
       && forall i :: 68 <= i < 68 + reserved.value.index ==> bytes[i] == 0)
  {
    reserved := None;
    var _ :- ValidateHeaderString(bytes[0..16]);
    var pageSize :- ParsePageSize(bytes[16..18]);
    var writeVersion := FormatVersionFrom(bytes[18]);
    var readVersion := FormatVersionFrom(bytes[19]);
    var reservedBytes := bytes[20];
    var _ :- ValidateFraction(bytes[21], 64, MaximumPayload);
    var _ :- ValidateFraction(bytes[22], 32, MinimumPayload);
    var _ :- ValidateFraction(bytes[23], 32, Leaf);
    // A 4-byte slice always parses, so the `?` after each read never fires.
    var changeCounter := TryParseU32(bytes[24..28]).value;
    var databaseSize := match TryParseU32(bytes[28..32])
      case Ok(n) => NonZeroNew(n)
      case Err(_) => None;
    var firstFreePage := TryParseU32(bytes[32..36]).value;
    var freePageLen := TryParseU32(bytes[36..40]).value;
    var freePageListInfo := FreePageListInfoNew(firstFreePage, freePageLen);
    var schemaCookie := TryParseU32(bytes[40..44]).value;
    var rawSchemaVersion := TryParseU32(bytes[44..48]).value;
    var schemaVersion :- SchemaVersionTryFrom(rawSchemaVersion);
    var cacheSize := TryParseU32(bytes[48..52]).value;
    var rawVacuum := TryParseU32(bytes[52..56]).value;
    var vacuumSetting := VacuumSettingFull(rawVacuum);
    var rawTextEncoding := TryParseU32(bytes[56..60]).value;
    // The source applies `?` here too; the conversion never fails.
    var textEncoding := TextEncodingTryFrom(rawTextEncoding).value;
    var userVersion := TryParseI32(bytes[60..64]).value;
    var applicationId := TryParseU32(bytes[64..68]).value;
    var zeros := ValidateReservedZeros(bytes[68..92]);
    assert forall i :: 68 <= i < 92 ==> bytes[i] == bytes[68..92][i - 68];
    if zeros.Err? {
      reserved := Some(zeros.error);
    }
    var versionValidFor := TryParseU32(bytes[92..96]).value;
    var libraryWriteVersion := TryParseU32(bytes[96..100]).value;
    r := Ok(DatabaseHeader(
      pageSize, writeVersion, readVersion, reservedBytes, changeCounter,
      databaseSize, freePageListInfo, schemaCookie, schemaVersion, cacheSize,
      vacuumSetting, textEncoding, userVersion, applicationId,
      versionValidFor, libraryWriteVersion));
  }
}
