/**
 * USB serial drivers: which driver `UsbSerialDriverFactory` picks for a
 * device's vendor and product ids, and the arithmetic of the CP21xx
 * driver — the bytes of the baud rate, the line-control word and the
 * configuration requests sent when the port is opened and closed. The
 * control transfers themselves are values here; what the device answers is
 * a parameter.
 */
module UsbDrivers {
  import opened JavaTypes
  import opened Results
  import opened ByteArrayConversion

  const VENDOR_SILABS: int32 := 0x10c4
  const PRODUCT_SILABS_CP2102: int32 := 0xea60
  const PRODUCT_SILABS_CP2105: int32 := 0xea70
  const PRODUCT_SILABS_CP2108: int32 := 0xea71
  const PRODUCT_SILABS_CP2110: int32 := 0xea80
  const VENDOR_STM: int32 := 0x0483
  const PRODUCT_STM32: int32 := 0x5740

  /** The drivers the factory can create. */
  datatype Driver = Cp21xx | CdcAcm

  /** A USB vendor id with one of its product ids. */
  datatype Product = Product(vendorId: int32, productId: int32)

  /**
   * `createDriver`: the CP21xx driver for the four SiLabs bridges, the
   * CDC-ACM driver for the STM32 virtual port, and
   * `IllegalArgumentException` for anything else.
   */
  function CreateDriver(vendorId: int32, productId: int32): (r: Result<Driver>)
    ensures r.Err? ==> r.error == IllegalArgument
  {
    if vendorId == VENDOR_SILABS then
      if productId == PRODUCT_SILABS_CP2102 || productId == PRODUCT_SILABS_CP2105
         || productId == PRODUCT_SILABS_CP2108 || productId == PRODUCT_SILABS_CP2110
      then Ok(Cp21xx)
      else Err(IllegalArgument)
    else if vendorId == VENDOR_STM then
      if productId == PRODUCT_STM32 then Ok(CdcAcm) else Err(IllegalArgument)
    else
      Err(IllegalArgument)
  }

  /** `getSupportingProducts`: the four SiLabs bridges, in declaration order, each once. */
  function SupportingProducts(): (r: seq<Product>)
    ensures |r| == 4
    ensures forall i | 0 <= i < |r| :: r[i].vendorId == VENDOR_SILABS
    ensures forall i, j | 0 <= i < j < |r| :: r[i] != r[j]
  {
    [ Product(VENDOR_SILABS, PRODUCT_SILABS_CP2102),
      Product(VENDOR_SILABS, PRODUCT_SILABS_CP2105),
      Product(VENDOR_SILABS, PRODUCT_SILABS_CP2108),
      Product(VENDOR_SILABS, PRODUCT_SILABS_CP2110) ]
  }

  /** The CP21xx driver is created for exactly the products the factory lists as supported. */
  lemma Cp21xxIffSupported(vendorId: int32, productId: int32)
    ensures CreateDriver(vendorId, productId) == Ok(Cp21xx) <==> Product(vendorId, productId) in SupportingProducts()
  {
  }

  /**
   * A driver is created for a listed product or the STM32 port and for
   * nothing else; the STM32 port is accepted although it is not listed.
   */
  lemma DriverIffSupportedOrStm(vendorId: int32, productId: int32)
    ensures CreateDriver(vendorId, productId).Ok? <==>
              Product(vendorId, productId) in SupportingProducts() || (vendorId == VENDOR_STM && productId == PRODUCT_STM32)
    ensures CreateDriver(VENDOR_STM, PRODUCT_STM32) == Ok(CdcAcm)
    ensures Product(VENDOR_STM, PRODUCT_STM32) !in SupportingProducts()
  {
    Cp21xxIffSupported(vendorId, productId);
  }

  // The CP21xx driver.

  const DEFAULT_BAUD_RATE: int32 := 9600
  const BAUD_RATE_GEN_FREQ: int32 := 0x384000

  const SILABSER_IFC_ENABLE_REQUEST_CODE: int32 := 0x00
  const SILABSER_SET_BAUDDIV_REQUEST_CODE: int32 := 0x01
  const SILABSER_SET_LINE_CTL_REQUEST_CODE: int32 := 0x03
  const SILABSER_SET_MHS_REQUEST_CODE: int32 := 0x07
  const SILABSER_SET_BAUDRATE: int32 := 0x1E

  const UART_ENABLE: int32 := 0x0001
  const UART_DISABLE: int32 := 0x0000
  const MCR_ALL: bv16 := 0x0003
  const CONTROL_WRITE_DTR: bv16 := 0x0100
  const CONTROL_WRITE_RTS: bv16 := 0x0200

  const DATABITS_5: int32 := 5
  const DATABITS_6: int32 := 6
  const DATABITS_7: int32 := 7
  const DATABITS_8: int32 := 8
  const PARITY_NONE: int32 := 0
  const PARITY_ODD: int32 := 1
  const PARITY_EVEN: int32 := 2
  const PARITY_MARK: int32 := 3
  const PARITY_SPACE: int32 := 4
  const STOPBITS_1: int32 := 1
  const STOPBITS_2: int32 := 2
  const STOPBITS_1_5: int32 := 3

  /**
   * A vendor control transfer from host to device (request type `0x41`,
   * index 0): its request code, its value and the bytes it carries.
   */
  datatype ControlRequest = ControlRequest(request: int32, value: int32, data: seq<byte>)

  /** `setConfigSingle`: a request with a value and no data. */
  function ConfigSingle(request: int32, value: int32): (r: ControlRequest)
    ensures r.request == request && r.value == value && r.data == []
  {
    ControlRequest(request, value, [])
  }

  /**
   * The data of `setBaudRate`: byte `i` is `(byte) ((baudRate >> 8i) & 0xff)`.
   * The arithmetic shift is division rounding down and `& 0xff` the
   * non-negative remainder modulo 256.
   */
  function BaudRateBytes(baudRate: int32): (data: seq<byte>)
    ensures |data| == 4
  {
    var b := baudRate as int;
    [ToByte(b % 0x100), ToByte((b / 0x100) % 0x100), ToByte((b / 0x1_0000) % 0x100), ToByte((b / 0x100_0000) % 0x100)]
  }

  /** `& 0xff` before the cast to `byte` changes nothing. */
  lemma LowByte(x: int)
    ensures ToByte(x % 0x100) == ToByte(x)
  {
  }

  /** The baud-rate bytes are the rate's four bytes, least significant first, as `intToByteArray` writes them. */
  lemma BaudRateBytesLittleEndian(baudRate: int32)
    ensures BaudRateBytes(baudRate) == IntToByteArray(baudRate, LittleEndian)
  {
    var b := baudRate as int;
    LowByte(b);
    LowByte(b / 0x100);
    LowByte(b / 0x1_0000);
    LowByte(b / 0x100_0000);
  }

  /** The device reads the baud rate back from the four bytes: reading them little-endian gives the rate. */
  lemma BaudRateRoundTrip(baudRate: int32)
    ensures GetInt(BaudRateBytes(baudRate), LittleEndian) == baudRate
    ensures BytesToInt(Some(BaudRateBytes(baudRate)), 0, 4, LittleEndian) == Ok(baudRate)
  {
    BaudRateBytesLittleEndian(baudRate);
    GetIntOfBytes(baudRate, LittleEndian);
    IntRoundTrip(baudRate, LittleEndian);
  }

  /** The data-bits field of the line-control word: 5 to 8 data bits, and 8 for any other value. */
  function DataBitsFlag(dataBits: int32): (f: bv16)
  {
    if dataBits == DATABITS_5 then 0x0500
    else if dataBits == DATABITS_6 then 0x0600
    else if dataBits == DATABITS_7 then 0x0700
    else 0x0800
  }

  /** The parity field: odd and even set a bit of their own; none, mark and space set nothing. */
  function ParityFlag(parity: int32): (f: bv16)
  {
    if parity == PARITY_ODD then 0x0010
    else if parity == PARITY_EVEN then 0x0020
    else 0
  }

  /** The stop-bits field: two stop bits set bit 1; one and one and a half set nothing. */
  function StopBitsFlag(stopBits: int32): (f: bv16)
  {
    if stopBits == STOPBITS_2 then 2 else 0
  }

  /** The line-control word of `setParameters`: the three fields ORed into zero, in that order. */
  function LineControl(dataBits: int32, stopBits: int32, parity: int32): (w: int32)
  {
    var config: bv16 := 0;
    var withDataBits := config | DataBitsFlag(dataBits);
    var withParity := withDataBits | ParityFlag(parity);
    var withStopBits := withParity | StopBitsFlag(stopBits);
    withStopBits as int as int32
  }

  /** The number of data bits the line-control word asks for. */
  function DataBitsOf(dataBits: int32): nat
  {
    if DATABITS_5 <= dataBits <= DATABITS_8 then dataBits as nat else 8
  }

  /**
   * The device decodes the word field by field: bits 8 to 15 hold the number
   * of data bits, bits 4 to 7 the parity (1 odd, 2 even, 0 otherwise) and
   * bits 0 to 3 the stop bits (2 for two stop bits, 0 otherwise).
   */
  lemma LineControlFields(dataBits: int32, stopBits: int32, parity: int32)
    ensures LineControl(dataBits, stopBits, parity) as int / 0x100 == DataBitsOf(dataBits)
    ensures (LineControl(dataBits, stopBits, parity) as int / 0x10) % 0x10 ==
              if parity == PARITY_ODD then 1 else if parity == PARITY_EVEN then 2 else 0
    ensures LineControl(dataBits, stopBits, parity) as int % 0x10 == if stopBits == STOPBITS_2 then 2 else 0
  {
    var parityCode := if parity == PARITY_ODD then 1 else if parity == PARITY_EVEN then 2 else 0;
    var stopCode := if stopBits == STOPBITS_2 then 2 else 0;
    LineControlValue(dataBits, stopBits, parity);
    WordFields(DataBitsOf(dataBits), parityCode, stopCode);
  }

  /** The line-control word as a number: the data bits times 0x100, the parity code times 0x10, and the stop code. */
  lemma LineControlValue(dataBits: int32, stopBits: int32, parity: int32)
    ensures LineControl(dataBits, stopBits, parity) as int ==
              DataBitsOf(dataBits) * 0x100 + (if parity == PARITY_ODD then 1 else if parity == PARITY_EVEN then 2 else 0) * 0x10 +
              (if stopBits == STOPBITS_2 then 2 else 0)
  {
    var d := DataBitsFlag(dataBits);
    var p := ParityFlag(parity);
    var s := StopBitsFlag(stopBits);
    assert (0 as bv16) | d == d;
    FlagsDisjoint(d, p, s);
    assert d as int == DataBitsOf(dataBits) * 0x100;
  }

  /** A word built from a high byte and two nibbles gives them back by division and remainder. */
  lemma WordFields(high: nat, mid: nat, low: nat)
    requires high < 0x100 && mid < 0x10 && low < 0x10
    ensures (high * 0x100 + mid * 0x10 + low) / 0x100 == high
    ensures ((high * 0x100 + mid * 0x10 + low) / 0x10) % 0x10 == mid
    ensures (high * 0x100 + mid * 0x10 + low) % 0x10 == low
  {
    var w := high * 0x100 + mid * 0x10 + low;
    assert w == (high * 0x10 + mid) * 0x10 + low;
  }

  /** ORing the three fields adds them: they never share a bit. */
  lemma FlagsDisjoint(d: bv16, p: bv16, s: bv16)
    requires d == 0x0500 || d == 0x0600 || d == 0x0700 || d == 0x0800
    requires p == 0 || p == 0x0010 || p == 0x0020
    requires s == 0 || s == 2
    ensures ((d | p) | s) as int == d as int + p as int + s as int
  {
    if d == 0x0500 {
      FieldsDisjoint(0x0500, p, s);
    } else if d == 0x0600 {
      FieldsDisjoint(0x0600, p, s);
    } else if d == 0x0700 {
      FieldsDisjoint(0x0700, p, s);
    } else {
      FieldsDisjoint(0x0800, p, s);
    }
  }

  /** The low byte's two fields under a data-bits field whose low byte is clear. */
  lemma FieldsDisjoint(d: bv16, p: bv16, s: bv16)
    requires d & 0xff == 0 && d < 0x1000
    requires p == 0 || p == 0x0010 || p == 0x0020
    requires s == 0 || s == 2
    ensures ((d | p) | s) as int == d as int + p as int + s as int
  {
    assert (d | p) | s == d + p + s;
  }

  /**
   * `setParameters`: the baud-rate request, then, unless the device answered
   * it with a negative result (an `IOException`), the line-control request.
   * `baudTransferResult` is what the first control transfer returned.
   */
  function SetParameters(baudRate: int32, dataBits: int32, stopBits: int32, parity: int32, baudTransferResult: int32):
    (r: (seq<ControlRequest>, Outcome))
    ensures |r.0| >= 1 && r.0[0] == ControlRequest(SILABSER_SET_BAUDRATE, 0, BaudRateBytes(baudRate))
    ensures r.1 == Done <==> baudTransferResult >= 0
    ensures r.1 == Done ==> |r.0| == 2 && r.0[1] == ConfigSingle(SILABSER_SET_LINE_CTL_REQUEST_CODE, LineControl(dataBits, stopBits, parity))
    ensures r.1 != Done ==> r.0 == [r.0[0]] && r.1 == Threw(Io)
  {
    var baud := ControlRequest(SILABSER_SET_BAUDRATE, 0, BaudRateBytes(baudRate));
    if baudTransferResult < 0 then ([baud], Threw(Io))
    else ([baud, ConfigSingle(SILABSER_SET_LINE_CTL_REQUEST_CODE, LineControl(dataBits, stopBits, parity))], Done)
  }

  /** The modem-handshake value `open` sends: DTR and RTS raised, and both marked as written. */
  function HandshakeValue(): (v: int32)
  {
    (MCR_ALL | CONTROL_WRITE_DTR | CONTROL_WRITE_RTS) as int as int32
  }

  /**
   * `open`: a `RuntimeException` for a device with no interface; otherwise
   * the UART is enabled, the handshake lines raised and the baud divisor
   * for the default rate set, in that order.
   */
  function Open(interfaceCount: nat): (r: Result<seq<ControlRequest>>)
    ensures r.Err? <==> interfaceCount == 0
    ensures r.Err? ==> r.error == RuntimeError
    ensures r.Ok? ==> |r.value| == 3 && forall i | 0 <= i < 3 :: r.value[i].data == []
    ensures r.Ok? ==> r.value[0].request == SILABSER_IFC_ENABLE_REQUEST_CODE && r.value[0].value == UART_ENABLE
    ensures r.Ok? ==> r.value[1].request == SILABSER_SET_MHS_REQUEST_CODE && r.value[1].value == HandshakeValue()
    ensures r.Ok? ==> r.value[2].request == SILABSER_SET_BAUDDIV_REQUEST_CODE &&
                      r.value[2].value as int * DEFAULT_BAUD_RATE as int == BAUD_RATE_GEN_FREQ as int
  {
    if interfaceCount == 0 then Err(RuntimeError)
    else
      Ok([ ConfigSingle(SILABSER_IFC_ENABLE_REQUEST_CODE, UART_ENABLE),
           ConfigSingle(SILABSER_SET_MHS_REQUEST_CODE, HandshakeValue()),
           ConfigSingle(SILABSER_SET_BAUDDIV_REQUEST_CODE, BAUD_RATE_GEN_FREQ / DEFAULT_BAUD_RATE) ])
  }

  /** The handshake value raises both lines (bits 0 and 1) and sets both write-enable bits (bits 8 and 9), and nothing else. */
  lemma HandshakeBits()
    ensures HandshakeValue() as int % 4 == 3
    ensures HandshakeValue() as int / 0x100 == 3
    ensures HandshakeValue() == 0x0303
  {
    assert MCR_ALL | CONTROL_WRITE_DTR | CONTROL_WRITE_RTS == 0x0303;
  }

  /** `close`: an `IOException` when the connection is gone; otherwise the request that disables the UART. */
  function Close(connected: bool): (r: Result<ControlRequest>)
    ensures r.Err? <==> !connected
    ensures r.Err? ==> r.error == Io
  {
    if !connected then Err(Io) else Ok(ConfigSingle(SILABSER_IFC_ENABLE_REQUEST_CODE, UART_DISABLE))
  }

  /** Closing undoes the first step of opening: the same request, with the UART disabled instead of enabled. */
  lemma CloseUndoesEnable(interfaceCount: nat)
    requires interfaceCount > 0
    ensures Close(true).value.request == Open(interfaceCount).value[0].request
    ensures Close(true).value.value == UART_DISABLE != Open(interfaceCount).value[0].value
  {
  }
}
