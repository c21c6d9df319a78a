/** Small notions that several parts share. */
module Common {

  datatype Option<T> = None | Some(value: T)

  function Min(a: nat, b: nat): nat { if a < b then a else b }

  /** A buffer as C reads it: the characters in front of the first NUL. */
  function CStr(a: seq<char>): (s: string)
    ensures |s| <= |a| && s == a[..|s|] && '\0' !in s
    ensures |s| < |a| ==> a[|s|] == '\0'
  {
    if a == [] || a[0] == '\0' then ""
    else
      assert a[..1 + |CStr(a[1..])|] == [a[0]] + CStr(a[1..]);
      [a[0]] + CStr(a[1..])
  }
}
