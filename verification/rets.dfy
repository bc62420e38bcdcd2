/**
  rhino's result wrapper `Ret<T>`: a success flag, a payload, a flag telling
  system failures from business failures, and the error group and error of
  a failure.

  `T{}` (the value-initialised payload every constructor but `Ret(T)` stores)
  has no counterpart for an arbitrary Dafny type, so it is passed to the
  factories as `zero`. The `errMsg` factories take the caller's `Err` by
  reference and overwrite its message; here they return the overwritten
  `Err` beside the result.
*/
module Rets {
  import opened Errs

  datatype Ret<T> = Ret(success: bool, data: T, sysErr: bool, eGrp: EGrp, err: Err) {
    /** `succeed()`. */
    function Succeed(): bool { success }
    /** `sysErr()`. */
    function IsSysErr(): bool { sysErr }
    /** `getData()`. */
    function GetData(): T { data }
    /** `failed()`. */
    function Failed(): bool { !success }
    /** `getEGrp()`. */
    function GetEGrp(): EGrp { eGrp }
    /** `getErr()`. */
    function GetErr(): Err { err }
  }

  /** The three situations a caller tells apart. */
  datatype Status = Succeeded | SystemFailure | BusinessFailure

  function StatusOf<T>(r: Ret<T>): Status {
    if r.Succeed() then Succeeded
    else if r.IsSysErr() then SystemFailure
    else BusinessFailure
  }

  /** `failed()` is the negation of `succeed()` for every result. */
  lemma FailedIsNotSucceed<T>(r: Ret<T>)
    ensures r.Failed() == !r.Succeed()
    ensures r.Failed() <==> StatusOf(r) != Succeeded
  {
  }

  /** `Ret()`: a success with every other member value-initialised. */
  function Default<T>(zero: T): (r: Ret<T>)
    ensures StatusOf(r) == Succeeded && !r.IsSysErr()
    ensures r.GetData() == zero && r.GetEGrp() == DefaultEGrp && r.GetErr() == DefaultErr
  {
    Ret(true, zero, false, DefaultEGrp, DefaultErr)
  }

  /** `Ret(success, sysErr, eGrp, err)`. */
  function Make<T>(success: bool, sysErr: bool, g: EGrp, e: Err, zero: T): (r: Ret<T>)
    ensures r.Succeed() == success && r.IsSysErr() == sysErr
    ensures r.GetEGrp() == g && r.GetErr() == e && r.GetData() == zero
  {
    Ret(success, zero, sysErr, g, e)
  }

  /** `successWith(d)`, which is `Ret(d)`: a success carrying `d`. */
  function SuccessWith<T>(d: T): (r: Ret<T>)
    ensures StatusOf(r) == Succeeded && !r.IsSysErr() && r.GetData() == d
    ensures r.GetEGrp() == DefaultEGrp && r.GetErr() == DefaultErr
  {
    Ret(true, d, false, DefaultEGrp, DefaultErr)
  }

  /** The payload of `Ret<void *>`. */
  datatype Pointer = Nullptr | Address(addr: nat)

  /** `successOfNullptr`: a success whose payload is the null pointer. */
  function SuccessOfNullptr(): (r: Ret<Pointer>)
    ensures StatusOf(r) == Succeeded && r.GetData() == Nullptr
  {
    SuccessWith(Nullptr)
  }

  /** `sysErr(eGrp, err)`: a system failure reporting `g` and `e`. */
  function SysErr<T>(g: EGrp, e: Err, zero: T): (r: Ret<T>)
    ensures StatusOf(r) == SystemFailure && r.Failed() && r.IsSysErr()
    ensures r.GetEGrp() == g && r.GetErr() == e && r.GetData() == zero
  {
    Make(false, true, g, e, zero)
  }

  /** `bizErr(eGrp, err)`: a business failure reporting `g` and `e`. */
  function BizErr<T>(g: EGrp, e: Err, zero: T): (r: Ret<T>)
    ensures StatusOf(r) == BusinessFailure && r.Failed() && !r.IsSysErr()
    ensures r.GetEGrp() == g && r.GetErr() == e && r.GetData() == zero
  {
    Make(false, false, g, e, zero)
  }

  /** What an `errMsg` factory hands back: the result, and the caller's
      `Err` as the call leaves it. */
  datatype Reported<T> = Reported(ret: Ret<T>, callerErr: Err)

  /** `sysErr(eGrp, err, errMsg)`: overwrites `err.msg`, then reports the
      overwritten error as a system failure. */
  function SysErrWithMsg<T>(g: EGrp, e: Err, errMsg: string, zero: T): (r: Reported<T>)
    ensures r.callerErr.msg == errMsg
    ensures r.callerErr.code == e.code && r.callerErr.semanticCode == e.semanticCode
    ensures StatusOf(r.ret) == SystemFailure && r.ret.GetEGrp() == g && r.ret.GetErr() == r.callerErr
    ensures r.ret.GetData() == zero
  {
    var e' := e.(msg := errMsg);
    Reported(SysErr(g, e', zero), e')
  }

  /** `bizErr(eGrp, err, errMsg)`: overwrites `err.msg`, then reports the
      overwritten error as a business failure. */
  function BizErrWithMsg<T>(g: EGrp, e: Err, errMsg: string, zero: T): (r: Reported<T>)
    ensures r.callerErr.msg == errMsg
    ensures r.callerErr.code == e.code && r.callerErr.semanticCode == e.semanticCode
    ensures StatusOf(r.ret) == BusinessFailure && r.ret.GetEGrp() == g && r.ret.GetErr() == r.callerErr
    ensures r.ret.GetData() == zero
  {
    var e' := e.(msg := errMsg);
    Reported(BizErr(g, e', zero), e')
  }

  /** An `errMsg` factory applied to the catalog's own entry `i`, as in
      `sysErr(g, Err::FORMAT_ERR, m)`. The catalog entries are mutable
      globals, so the call changes the catalog: `catalog` is its state
      before the call, and the second component its state afterwards.
      `system` picks `sysErr` over `bizErr`. */
  function ErrMsgOnCatalog<T>(catalog: seq<Err>, i: nat, g: EGrp, m: string, system: bool, zero: T)
    : (r: (Ret<T>, seq<Err>))
    requires i < |catalog|
    ensures |r.1| == |catalog|
    ensures r.1[i].msg == m && r.1[i].code == catalog[i].code && r.1[i].semanticCode == catalog[i].semanticCode
    ensures forall j :: 0 <= j < |catalog| && j != i ==> r.1[j] == catalog[j]
    ensures r.0.Failed() && r.0.IsSysErr() == system && r.0.GetEGrp() == g && r.0.GetErr() == r.1[i]
  {
    var reported := if system then SysErrWithMsg(g, catalog[i], m, zero) else BizErrWithMsg(g, catalog[i], m, zero);
    (reported.ret, catalog[i := reported.callerErr])
  }

  /** The side effect outlives the call: after `sysErr(g, FORMAT_ERR, m)`
      every later reader of the catalog's `FORMAT_ERR` sees `m`, so a later
      plain `bizErr(g, FORMAT_ERR)` reports `m` instead of the default
      message. The other entries keep their contents. */
  lemma ErrMsgOverwritesCatalogEntry<T>(g: EGrp, m: string, zero: T)
    requires m != FORMAT_ERR.msg
    ensures var after := ErrMsgOnCatalog(Catalog(), 2, g, m, true, zero).1;
      && after == [SYS_ERR, UNREACHABLE, FORMAT_ERR.(msg := m), QUEUE_FULL]
      && BizErr(g, after[2], zero).GetErr().msg == m
      && BizErr(g, after[2], zero) != BizErr(g, FORMAT_ERR, zero)
  {
  }

  /** `FailureTransfer(source)`: carries a result's flags, group and error
      over to another payload type, with a value-initialised payload. */
  function FailureTransfer<S, T>(source: Ret<S>, zero: T): (r: Ret<T>)
    ensures StatusOf(r) == StatusOf(source)
    ensures r.Succeed() == source.Succeed() && r.IsSysErr() == source.IsSysErr()
    ensures r.GetEGrp() == source.GetEGrp() && r.GetErr() == source.GetErr()
    ensures r.GetData() == zero
  {
    Make(source.Succeed(), source.sysErr, source.eGrp, source.err, zero)
  }

  /** A failure transferred to another payload type is the same failure
      built directly there, and transferring twice is transferring once. */
  lemma FailureTransferKeepsFailure<S, U, T>(g: EGrp, e: Err, zs: S, zu: U, zt: T, r: Ret<S>)
    ensures FailureTransfer(SysErr(g, e, zs), zt) == SysErr(g, e, zt)
    ensures FailureTransfer(BizErr(g, e, zs), zt) == BizErr(g, e, zt)
    ensures FailureTransfer(FailureTransfer(r, zu), zt) == FailureTransfer(r, zt)
  {
  }
}
