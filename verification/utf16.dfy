/**
 * The two string conversions the wrappers use, on sequences of UTF-16 code units:
 * syscall.UTF16PtrFromString (to a NUL-terminated buffer) and syscall.UTF16ToString
 * (from a buffer, stopping at the first NUL).
 */
module Utf16 {
  import opened Native
  import opened Errors

  /** Position of the first NUL unit, or |s| when there is none. */
  function IndexOfNul(s: seq<uint16>): (pos: nat)
    ensures pos <= |s|
    ensures forall i :: 0 <= i < pos ==> s[i] != 0
    ensures pos < |s| ==> s[pos] == 0
  {
    if s == [] || s[0] == 0 then 0 else 1 + IndexOfNul(s[1..])
  }

  /** The three properties of IndexOfNul pin it down. */
  lemma IndexOfNulUnique(s: seq<uint16>, pos: nat)
    requires pos <= |s|
    requires forall i :: 0 <= i < pos ==> s[i] != 0
    requires pos < |s| ==> s[pos] == 0
    ensures IndexOfNul(s) == pos
  {
  }

  /** UTF16ToString: the units before the first NUL. */
  function UntilNul(s: seq<uint16>): (r: seq<uint16>)
    ensures 0 !in r && r <= s
    ensures |r| < |s| ==> s[|r|] == 0
  {
    s[..IndexOfNul(s)]
  }

  /** UTF16PtrFromString: a NUL-terminated copy, refused with EINVAL when s already holds a NUL. */
  function ToNulTerminated(s: seq<uint16>): (r: Result<seq<uint16>>)
    ensures r.Ok? <==> 0 !in s
    ensures r.Ok? ==> |r.value| == |s| + 1 && r.value[|s|] == 0 && r.value[..|s|] == s
    ensures !r.Ok? ==> r == Err(InvalidArgument)
  {
    if 0 in s then Err(InvalidArgument) else Ok(s + [0])
  }

  /** Reading back a converted string, whatever follows it in the buffer, gives the string. */
  lemma UntilNulInverse(s: seq<uint16>, rest: seq<uint16>)
    requires 0 !in s
    ensures UntilNul(ToNulTerminated(s).value + rest) == s
  {
    var b := ToNulTerminated(s).value + rest;
    IndexOfNulUnique(b, |s|);
    assert b[..|s|] == s;
  }
}
