/**
  The return-code classification of the libnfc binding (src/nfc.rs).
  The foreign calls themselves are not modelled: every operation takes the
  integer the C library returned (or whether it returned a null pointer)
  and yields what the Rust wrapper makes of it.
*/
module Nfc {
  import opened Bytes

  /** The binding's error enum. */
  datatype Error =
    | ContextInitializationFailed
    | DeviceInitializationFailed
    | IoError
    | InvalidArgument
    | NotSupported
    | NoSuchDevice
    | BufferOverflow
    | TimedOut
    | Aborted
    | NotImplemented
    | TargetReleased
    | RfTransmissionError
    | MifareAuthenticationFailed
    | SoftwareError
    | DeviceChipError

  /** The libnfc context, initiator and target handles, kept opaque. */
  datatype Context = Context
  datatype Initiator = Initiator
  datatype Target = Target

  /** The negative libnfc return codes that `From<c_int>` knows. */
  predicate IsErrorCode(code: int)
  {
    code in {-1, -2, -3, -4, -5, -6, -7, -8, -10, -20, -30, -80, -90}
  }

  /**
    The libnfc code each variant stands for, read off the NFC_E* constants of
    libnfc; the two initialisation failures are the binding's own and have none.
  */
  function Code(e: Error): (c: Option<int>)
    ensures c.None? <==> e.ContextInitializationFailed? || e.DeviceInitializationFailed?
    ensures c.Some? ==> c.value < 0 && IsErrorCode(c.value)
  {
    match e
    case ContextInitializationFailed => None
    case DeviceInitializationFailed => None
    case IoError => Some(-1)
    case InvalidArgument => Some(-2)
    case NotSupported => Some(-3)
    case NoSuchDevice => Some(-4)
    case BufferOverflow => Some(-5)
    case TimedOut => Some(-6)
    case Aborted => Some(-7)
    case NotImplemented => Some(-8)
    case TargetReleased => Some(-10)
    case RfTransmissionError => Some(-20)
    case MifareAuthenticationFailed => Some(-30)
    case SoftwareError => Some(-80)
    case DeviceChipError => Some(-90)
  }

  /**
    `impl From<c_int> for Error`. Any other code makes the Rust code panic,
    so it is excluded here.
  */
  function FromCode(code: int): (e: Error)
    requires IsErrorCode(code)
    ensures Code(e) == Some(code)
    ensures !e.ContextInitializationFailed? && !e.DeviceInitializationFailed?
  {
    if code == -1 then IoError
    else if code == -2 then InvalidArgument
    else if code == -3 then NotSupported
    else if code == -4 then NoSuchDevice
    else if code == -5 then BufferOverflow
    else if code == -6 then TimedOut
    else if code == -7 then Aborted
    else if code == -8 then NotImplemented
    else if code == -10 then TargetReleased
    else if code == -20 then RfTransmissionError
    else if code == -30 then MifareAuthenticationFailed
    else if code == -80 then SoftwareError
    else DeviceChipError
  }

  /** Distinct known codes give distinct variants. */
  lemma FromCodeInjective(c1: int, c2: int)
    requires IsErrorCode(c1) && IsErrorCode(c2)
    requires FromCode(c1) == FromCode(c2)
    ensures c1 == c2
  {
    assert Code(FromCode(c1)) == Some(c1);
  }

  /** Every variant except the two initialisation failures is the image of its own code. */
  lemma FromCodeOnto(e: Error)
    requires !e.ContextInitializationFailed? && !e.DeviceInitializationFailed?
    ensures Code(e).Some? && FromCode(Code(e).value) == e
  {
  }

  /** The thirteen codes of the table, each with its variant. */
  lemma FromCodeTable()
    ensures FromCode(-1) == IoError && FromCode(-2) == InvalidArgument
    ensures FromCode(-3) == NotSupported && FromCode(-4) == NoSuchDevice
    ensures FromCode(-5) == BufferOverflow && FromCode(-6) == TimedOut
    ensures FromCode(-7) == Aborted && FromCode(-8) == NotImplemented
    ensures FromCode(-10) == TargetReleased && FromCode(-20) == RfTransmissionError
    ensures FromCode(-30) == MifareAuthenticationFailed && FromCode(-80) == SoftwareError
    ensures FromCode(-90) == DeviceChipError
  {
  }

  /** `Context::new`: a null context pointer from `nfc_init` is the only failure. */
  function NewContext(contextIsNull: bool): (r: Result<Context, Error>)
    ensures r.Err? <==> contextIsNull
    ensures r.Err? ==> r.error == ContextInitializationFailed
  {
    if contextIsNull then Err(ContextInitializationFailed) else Ok(Context)
  }

  /**
    `Context::open_initiator`: a null device from `nfc_open` fails before
    `nfc_initiator_init` is called; a negative code from the latter is converted.
  */
  function OpenInitiator(deviceIsNull: bool, initCode: int): (r: Result<Initiator, Error>)
    requires !deviceIsNull && initCode < 0 ==> IsErrorCode(initCode)
    ensures r.Err? <==> deviceIsNull || initCode < 0
    ensures deviceIsNull ==> r == Err(DeviceInitializationFailed)
    ensures !deviceIsNull && initCode < 0 ==> Code(r.error) == Some(initCode)
  {
    if deviceIsNull then Err(DeviceInitializationFailed)
    else if initCode < 0 then Err(FromCode(initCode))
    else Ok(Initiator)
  }

  /**
    `Initiator::poll_target`: a negative code is an error, zero means no
    target answered, a positive count means a target was found.
  */
  function PollTarget(code: int): (r: Result<Option<Target>, Error>)
    requires code < 0 ==> IsErrorCode(code)
    ensures r.Err? <==> code < 0
    ensures r.Err? ==> Code(r.error) == Some(code)
    ensures r.Ok? ==> (r.value.Some? <==> code > 0)
  {
    if code < 0 then Err(FromCode(code))
    else if code == 0 then Ok(None)
    else Ok(Some(Target))
  }

  /**
    `Initiator::transceive`: a negative code is an error, anything else is
    the number of octets received.
  */
  function Transceive(code: int): (r: Result<nat, Error>)
    requires code < 0 ==> IsErrorCode(code)
    ensures r.Err? <==> code < 0
    ensures r.Err? ==> Code(r.error) == Some(code)
    ensures r.Ok? ==> r.value == code
  {
    if code < 0 then Err(FromCode(code)) else Ok(code)
  }

  /**
    The two initialisation failures come only from the null-pointer checks:
    no return code of polling, transceiving or initialising yields them.
  */
  lemma InitFailuresOnlyFromNullChecks(code: int, deviceIsNull: bool)
    requires code < 0 ==> IsErrorCode(code)
    ensures PollTarget(code).Err? ==> PollTarget(code).error !in {ContextInitializationFailed, DeviceInitializationFailed}
    ensures Transceive(code).Err? ==> Transceive(code).error !in {ContextInitializationFailed, DeviceInitializationFailed}
    ensures OpenInitiator(deviceIsNull, code) == Err(DeviceInitializationFailed) <==> deviceIsNull
    ensures OpenInitiator(deviceIsNull, code) != Err(ContextInitializationFailed)
  {
  }
}
