/** Character-level conventions shared by the driver modules. */
module Names {

  datatype Option<T> = None | Some(value: T) {
    function GetOr(default: T): T
    {
      if None? then default else value
    }
  }

  const NUL: char := '\0'

  /** The part of a character array that a NUL-terminated reading sees. */
  function CString(s: string): (r: string)
    ensures |r| <= |s| && NUL !in r
    ensures if NUL in s then |r| < |s| && s[|r|] == NUL else r == s
  {
    if s == [] || s[0] == NUL then [] else [s[0]] + CString(s[1..])
  }

  /** RtlCompareUnicodeString(a, b, TRUE) == 0, for any per-character case folding. */
  predicate SameName(fold: char -> char, a: string, b: string)
  {
    |a| == |b| && forall i | 0 <= i < |a| :: fold(a[i]) == fold(b[i])
  }

  predicate Listed(fold: char -> char, names: seq<string>, name: string)
  {
    exists i | 0 <= i < |names| :: SameName(fold, names[i], name)
  }

  /** PROCESS_HANDLE_TO_PROCESS_ID: a HANDLE keeps its low 32 bits. */
  function ProcessId(handle: nat): nat
  {
    handle % 0x1_0000_0000
  }

  /** Without folding, comparing names is comparing strings; with any, it is an equivalence. */
  lemma SameNameCompares(fold: char -> char, a: string, b: string, c: string)
    ensures SameName((x: char) => x, a, b) <==> a == b
    ensures SameName(fold, a, a) && (SameName(fold, a, b) <==> SameName(fold, b, a))
    ensures SameName(fold, a, b) && SameName(fold, b, c) ==> SameName(fold, a, c)
    ensures SameName(fold, a, b) ==> |a| == |b|
  {
  }

  /** Handles are told apart by their low 32 bits. */
  lemma ProcessIdIsLow(handle: nat, high: nat)
    ensures handle < 4294967296 ==> ProcessId(handle + high * 4294967296) == handle
  {
  }
}
