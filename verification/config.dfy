/** The driver's configuration surface: the baud-rate code table, the other
    bounded setting codes with their invalid sentinels, and the fixed-size
    character fields. */
module Config {
  import opened Bytes

  /** `supported_baudrate`, in declaration order; the code is the position. */
  datatype BaudRate =
    | Baud9600 | Baud19200 | Baud38400 | Baud57600 | Baud115200
    | Baud4800 | Baud2400 | Baud1200 | Baud230400 | BaudInvalid

  function BaudCode(b: BaudRate): Byte {
    match b
    case Baud9600 => 0
    case Baud19200 => 1
    case Baud38400 => 2
    case Baud57600 => 3
    case Baud115200 => 4
    case Baud4800 => 5
    case Baud2400 => 6
    case Baud1200 => 7
    case Baud230400 => 8
    case BaudInvalid => 9
  }

  /** `baudrate_values`, indexed by baud code; the last entry belongs to the sentinel. */
  const BaudrateValues: seq<nat> := [9600, 19200, 38400, 57600, 115200, 4800, 2400, 1200, 230400, 0]

  /** Baud codes that name a real rate. */
  const ValidBaudCodes: nat := 9

  /** The rate the module powers up with, and the rate the UART is initialised with. */
  const DefaultBaud: BaudRate := Baud9600
  const UartInitBaudrate: nat := 9600

  /** The table lookup the driver does with a baud code. */
  function BaudValue(b: BaudRate): (v: nat)
    ensures b == BaudInvalid <==> v == 0
    ensures b != BaudInvalid ==> 1200 <= v <= 230400
  {
    BaudrateValues[BaudCode(b)]
  }

  /** The baud rate named by a code; codes past the table are not rates. */
  function BaudFromCode(c: Byte): (r: Option<BaudRate>)
    ensures r.Some? <==> c <= 9
    ensures r.Some? ==> BaudCode(r.value) == c
  {
    match c
    case 0 => Some(Baud9600)
    case 1 => Some(Baud19200)
    case 2 => Some(Baud38400)
    case 3 => Some(Baud57600)
    case 4 => Some(Baud115200)
    case 5 => Some(Baud4800)
    case 6 => Some(Baud2400)
    case 7 => Some(Baud1200)
    case 8 => Some(Baud230400)
    case 9 => Some(BaudInvalid)
    case _ => None
  }

  /** Searches the valid part of the table for `v`, from code `from` on. */
  function FindBaudCode(v: nat, from: nat): (r: Option<Byte>)
    requires from <= ValidBaudCodes
    ensures r.Some? ==> from <= r.value < ValidBaudCodes && BaudrateValues[r.value] == v
    ensures r.None? <==> forall c :: from <= c < ValidBaudCodes ==> BaudrateValues[c] != v
    decreases ValidBaudCodes - from
  {
    if from == ValidBaudCodes then None
    else if BaudrateValues[from] == v then Some(from as Byte)
    else FindBaudCode(v, from + 1)
  }

  /** The partial inverse of `BaudValue`: the valid baud setting with rate `v`. */
  function BaudFromValue(v: nat): (r: Option<BaudRate>)
    ensures r.Some? ==> r.value != BaudInvalid && BaudValue(r.value) == v
    ensures r.None? ==> forall b :: b != BaudInvalid ==> BaudValue(b) != v
  {
    match FindBaudCode(v, 0)
    case None => None
    case Some(c) => BaudFromCode(c)
  }

  /** Different valid codes carry different rates. */
  lemma BaudValuesDistinct()
    ensures forall i, j :: 0 <= i < j < ValidBaudCodes ==> BaudrateValues[i] != BaudrateValues[j]
  {
  }

  /** Value to code is well defined: every valid setting is recovered from its rate. */
  lemma {:induction false} BaudRoundTrip(b: BaudRate)
    requires b != BaudInvalid
    ensures BaudFromValue(BaudValue(b)) == Some(b)
  {
    BaudValuesDistinct();
    var r := BaudFromValue(BaudValue(b));
    assert r.Some?;
    assert BaudCode(r.value) < ValidBaudCodes && BaudCode(b) < ValidBaudCodes;
    assert BaudrateValues[BaudCode(r.value)] == BaudrateValues[BaudCode(b)];
  }

  /** The default setting and the UART's initial rate agree. */
  lemma DefaultBaudMatchesUart()
    ensures BaudValue(DefaultBaud) == UartInitBaudrate
  {
  }

  /** The nine other code enumerations of hm10_config.hpp:26-121. */
  datatype Setting =
    | AdvertInterval | AdvertType | ConnInterval | ConnTimeout | WorkMode
    | ModulePower | OutputPower | Role | BondMode

  /** The values of each enumeration's named enumerators, in declaration
      order, leaving out its `*_invalid` enumerator. */
  function DeclaredCodes(s: Setting): seq<Byte> {
    match s
    case AdvertInterval => [0, 1, 2, 3, 4, 5, 6, 7, 8, 9, 10, 11, 12, 13, 14, 15]
    case AdvertType => [0, 1, 2, 3]
    case ConnInterval => [0, 1, 2, 3, 4, 5, 6, 7, 8, 9]
    case ConnTimeout => [0, 1, 2, 3, 4, 5, 6]
    case WorkMode => [0, 1, 2]
    case ModulePower => [0, 1, 2, 3]
    case OutputPower => [0, 1]
    case Role => [0, 1]
    case BondMode => [0, 1, 2, 3]
  }

  /** The value of each enumeration's `*_invalid` enumerator. */
  function SentinelCode(s: Setting): Byte {
    match s
    case AdvertInterval => 255
    case AdvertType => 255
    case ConnInterval => 255
    case ConnTimeout => 255
    case WorkMode => 255
    case ModulePower => 255
    case OutputPower => 255
    case Role => 255
    case BondMode => 255
  }

  /** The `*_invalid` value shared by every setting enumeration. */
  const InvalidCode: Byte := 255

  /** Number of named, valid enumerators of each setting. */
  function CodeCount(s: Setting): nat {
    |DeclaredCodes(s)|
  }

  predicate IsValidCode(s: Setting, c: Byte) {
    c in DeclaredCodes(s)
  }

  /** Each enumerator's value is its position in the declaration, so the
      valid codes of a setting are exactly 0 .. CodeCount - 1. */
  lemma CodesContiguous(s: Setting)
    ensures forall i :: 0 <= i < |DeclaredCodes(s)| ==> DeclaredCodes(s)[i] == i
    ensures forall c: Byte :: IsValidCode(s, c) <==> c < CodeCount(s)
  {
    var codes := DeclaredCodes(s);
    assert forall i :: 0 <= i < |codes| ==> codes[i] == i;
    forall c: Byte
      ensures IsValidCode(s, c) <==> c < CodeCount(s)
    {
      if c < |codes| {
        assert codes[c] == c;
      }
    }
  }

  /** Every enumeration's sentinel is the shared `InvalidCode`, it names none
      of the setting's values, and every named value lies below it. */
  lemma SentinelIsNotACode(s: Setting)
    ensures SentinelCode(s) == InvalidCode
    ensures !IsValidCode(s, SentinelCode(s))
    ensures forall i :: 0 <= i < |DeclaredCodes(s)| ==> DeclaredCodes(s)[i] < InvalidCode
  {
    CodesContiguous(s);
  }

  /** Length of the `mac_address`, `device_name` and `device_version` character arrays. */
  const FieldLen: nat := 15

  /** Hex characters in a MAC address as the module reports it. */
  const MacHexLen: nat := 12
}
