/**
  rhino's error records: an error group `EGrp` (code and semantic tag) and an
  error `Err` (code, semantic tag and message), with the catalog constants.
  Both are plain values; a default-constructed one has code 0 and empty
  strings.
*/
module Errs {

  /** `int32_t`, the type of both codes. */
  newtype Code = x: int | -0x8000_0000 <= x < 0x8000_0000

  /** An error group. */
  datatype EGrp = EGrp(code: Code, semanticCode: string)

  /** An error: the message starts out as the catalog's default message and
      can be overwritten by the `errMsg` factories of `Ret`. */
  datatype Err = Err(code: Code, semanticCode: string, msg: string)

  /** `EGrp{}` and `Err{}`. */
  const DefaultEGrp := EGrp(0, "")
  const DefaultErr := Err(0, "", "")

  const INTERNAL := EGrp(-1, "INTERNAL")

  const SYS_ERR := Err(-1, "SYS_ERR", "system encounter some not know exception, plese retry later")
  const UNREACHABLE := Err(-2, "UNREACHABLE", "it should have not happen!")
  const FORMAT_ERR := Err(1, "FORMAT_ERR", "format wrong, please check input information")
  const QUEUE_FULL := Err(2, "QUEUE_FULL", "queue is full, please try later")

  /** The errors of the catalog, in declaration order. In C++ they are
      mutable globals; these constants are their initial contents, and
      `Rets.ErrMsgOnCatalog` models an overwrite of one of them. */
  function Catalog(): (errs: seq<Err>)
    ensures |errs| == 4
    ensures forall i :: 0 <= i < |errs| ==> errs[i].code != 0
    ensures forall i, j :: 0 <= i < j < |errs| ==> errs[i].code != errs[j].code
    ensures forall i, j :: 0 <= i < j < |errs| ==> errs[i].semanticCode != errs[j].semanticCode
  {
    [SYS_ERR, UNREACHABLE, FORMAT_ERR, QUEUE_FULL]
  }

  /** Every catalog entry, error group included, has a non-zero code and so
      differs from the default-constructed record. */
  lemma CatalogIsNotDefault()
    ensures INTERNAL.code != 0 && INTERNAL != DefaultEGrp
    ensures forall i :: 0 <= i < |Catalog()| ==> Catalog()[i] != DefaultErr
  {
  }
}
