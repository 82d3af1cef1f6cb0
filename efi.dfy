/** Values shared by every part of the model: optional values, the UEFI status
    codes the overlay and the patch engine pass around, bytes, and the small
    string library (ASCII case folding, prefix and substring search) the C code
    takes from its base libraries. */
module Efi {

  datatype Option<+T> = None | Some(value: T)

  /** The EFI_STATUS values that occur in the modelled code. Warnings are not
      errors: EFI_ERROR is false for Success and WarnDeleteFailure. */
  datatype Status =
    | Success
    | WarnDeleteFailure
    | NotFound
    | DeviceError
    | WriteProtected
    | OutOfResources
    | InvalidParameter
    | BufferTooSmall
    | Unsupported
    | AccessDenied

  /** EFI_ERROR (Status): the high bit is set for errors, not for warnings. */
  predicate IsError(s: Status) {
    s != Success && s != WarnDeleteFailure
  }

  /** A byte of a buffer (UINT8, CHAR8). */
  type byte = x: int | 0 <= x < 256

  /** UTF-16 / ASCII characters are Dafny chars; a CHAR8 string is turned into
      bytes with its code points. */
  function AsciiByte(c: char): (b: byte)
    ensures c as int < 256 ==> b == c as int
  {
    if c as int < 256 then c as int else 0
  }

  function AsciiBytes(s: string): (r: seq<byte>)
    ensures |r| == |s|
    ensures forall i :: 0 <= i < |s| ==> r[i] == AsciiByte(s[i])
  {
    seq(|s|, i requires 0 <= i < |s| => AsciiByte(s[i]))
  }

  // ---------------------------------------------------------------------
  // ASCII case folding (TO_UPPER): only 'a'..'z' change.

  function ToUpper(c: char): (u: char)
    ensures 'a' <= c <= 'z' ==> u as int == c as int - 32
    ensures !('a' <= c <= 'z') ==> u == c
  {
    if 'a' <= c <= 'z' then (c as int - 32) as char else c
  }

  /** Two equally long strings are equal under ASCII upper-casing. */
  predicate UpperEq(a: string, b: string) {
    |a| == |b| && forall i :: 0 <= i < |a| ==> ToUpper(a[i]) == ToUpper(b[i])
  }

  /** StriCmp (A, B) == 0. */
  predicate StriEq(a: string, b: string) {
    UpperEq(a, b)
  }

  /** StriStartsWith (S, Prefix): S begins with Prefix, ignoring ASCII case. */
  predicate StriStartsWith(s: string, prefix: string) {
    |prefix| <= |s| && UpperEq(s[..|prefix|], prefix)
  }

  // ---------------------------------------------------------------------
  // Substring search (StrStr / AsciiStrStr) on any element type.

  predicate OccursAt<T(==)>(hay: seq<T>, k: int, needle: seq<T>) {
    0 <= k && k + |needle| <= |hay| && hay[k..k + |needle|] == needle
  }

  /** The first index at which needle occurs in hay, if any. */
  function IndexOf<T(==)>(hay: seq<T>, needle: seq<T>): (r: Option<nat>)
    ensures r.Some? ==> OccursAt(hay, r.value, needle)
    ensures r.Some? ==> forall j :: 0 <= j < r.value ==> !OccursAt(hay, j, needle)
    ensures r.None? ==> forall j :: 0 <= j ==> !OccursAt(hay, j, needle)
    decreases |hay|
  {
    if |needle| > |hay| then None
    else if hay[..|needle|] == needle then Some(0)
    else
      assert forall j :: 1 <= j ==> OccursAt(hay, j, needle) == OccursAt(hay[1..], j - 1, needle);
      match IndexOf(hay[1..], needle)
      case None => None
      case Some(k) => Some(k + 1)
  }

  predicate Contains<T(==)>(hay: seq<T>, needle: seq<T>) {
    IndexOf(hay, needle).Some?
  }

  /** CountOccurrences (S, C). */
  function CountChar(s: string, c: char): (n: nat)
    ensures n <= |s|
    ensures n == 0 <==> forall i :: 0 <= i < |s| ==> s[i] != c
  {
    if s == [] then 0 else (if s[0] == c then 1 else 0) + CountChar(s[1..], c)
  }

  // ---------------------------------------------------------------------
  // Overwriting part of a buffer (CopyMem into a larger buffer).

  /** b with |w| elements overwritten by w from k on. */
  function Splice<T>(b: seq<T>, k: nat, w: seq<T>): (r: seq<T>)
    requires k + |w| <= |b|
    ensures |r| == |b| && r[k..k + |w|] == w
  {
    b[..k] + w + b[k + |w|..]
  }

  /** Splice changes nothing outside the overwritten span. */
  lemma SpliceKeeps<T>(b: seq<T>, k: nat, w: seq<T>)
    requires k + |w| <= |b|
    ensures forall i :: 0 <= i < |b| && !(k <= i < k + |w|) ==> Splice(b, k, w)[i] == b[i]
  {
  }

  /** Everything after the overwritten window is untouched. */
  lemma SpliceTail<T>(b: seq<T>, k: nat, w: seq<T>)
    requires k + |w| <= |b|
    ensures Splice(b, k, w)[k + |w|..] == b[k + |w|..]
  {
  }

  /** Two sequences that agree from p on agree on every slice there. */
  lemma TailSlice<T>(b: seq<T>, b': seq<T>, p: nat, st: nat, m: nat)
    requires |b'| == |b| && p <= st && st + m <= |b| && b'[p..] == b[p..]
    ensures b'[st..st + m] == b[st..st + m]
  {
    assert b'[st..st + m] == b'[p..][st - p..st - p + m];
    assert b[st..st + m] == b[p..][st - p..st - p + m];
  }

  /** CopyMem (buf + k, w, |w|). */
  method CopyAt<T>(buf: array<T>, k: nat, w: seq<T>)
    requires k + |w| <= buf.Length
    modifies buf
    ensures buf[..] == Splice(old(buf[..]), k, w)
  {
    var i := 0;
    while i < |w|
      invariant 0 <= i <= |w|
      invariant buf[..] == old(buf[..])[..k] + w[..i] + old(buf[..])[k + i..]
    {
      buf[k + i] := w[i];
      i := i + 1;
    }
  }

  /** The length of the NUL-terminated text at the start of b. */
  function TextEnd(b: seq<char>): (r: nat)
    ensures r <= |b|
    ensures forall i :: 0 <= i < r ==> b[i] != '\0'
    ensures r < |b| ==> b[r] == '\0'
  {
    if b == [] || b[0] == '\0' then 0 else 1 + TextEnd(b[1..])
  }
}
