/** `dataURLtoFile` of the camera screen: split a data URL at its commas,
    take the MIME type from the header, decode the payload with `atob` and
    copy the character codes into a byte array. */
module DataUrl {
  import opened Wrappers

  /** A character whose code is below 256, as `atob` produces. */
  type Latin1 = c: char | (c as int) < 256 witness 'A'

  /** `atob`: base64 decoding (RFC 4648, section 4 alphabet); `None` when it throws. */
  type Atob = string -> Option<seq<Latin1>>

  /** Characters that `.` in a JavaScript regular expression does not match. */
  predicate IsLineTerminator(c: char)
  {
    c == '\n' || c == '\r' || c == '\U{2028}' || c == '\U{2029}'
  }

  /** Index of the first `c` in `s` at or after `from`. */
  function IndexOf(s: string, c: char, from: nat): (r: Option<nat>)
    decreases |s| - from
    ensures r.Some? ==> from <= r.value < |s| && s[r.value] == c
    ensures r.Some? ==> forall k :: from <= k < r.value ==> s[k] != c
    ensures r.None? ==> forall k :: from <= k < |s| ==> s[k] != c
  {
    if from >= |s| then None
    else if s[from] == c then Some(from)
    else IndexOf(s, c, from + 1)
  }

  /** `dataUrl.split(",")[0]`: everything before the first comma. */
  function Header(url: string): (h: string)
    ensures ',' !in h
    ensures h <= url && (|h| < |url| ==> url[|h|] == ',')
  {
    match IndexOf(url, ',', 0)
    case None => url
    case Some(i) => url[..i]
  }

  /** `dataUrl.split(",")[1]`: the text between the first and the second
      comma (or the end); `None` (undefined) when there is no comma. */
  function Payload(url: string): (p: Option<string>)
    ensures p.None? <==> ',' !in url
    ensures p.Some? ==> ',' !in p.value && |Header(url)| + 1 + |p.value| <= |url| && url[|Header(url)| + 1..] == p.value + url[|Header(url)| + 1 + |p.value|..]
    ensures p.Some? ==> |Header(url)| + 1 + |p.value| == |url| || url[|Header(url)| + 1 + |p.value|] == ','
  {
    match IndexOf(url, ',', 0)
    case None => None
    case Some(i) =>
      match IndexOf(url, ',', i + 1)
      case None => Some(url[i + 1..])
      case Some(j) => Some(url[i + 1..j])
  }

  /** Splitting undoes joining: the header and the payload are exactly the
      first two comma-separated fields, whatever follows the second comma. */
  lemma {:induction false} SplitRecoversFields(h: string, p: string, rest: string)
    requires ',' !in h && ',' !in p
    requires rest == [] || rest[0] == ','
    ensures Header(h + "," + p + rest) == h
    ensures Payload(h + "," + p + rest) == Some(p)
  {
    var url := h + "," + p + rest;
    assert url[|h|] == ',';
    assert forall k :: 0 <= k < |h| ==> url[k] == h[k];
    assert forall k :: |h| + 1 <= k < |h| + 1 + |p| ==> url[k] == p[k - |h| - 1];
    var i := IndexOf(url, ',', 0);
    assert i == Some(|h|);
    var j := IndexOf(url, ',', |h| + 1);
    if rest == [] {
      assert j == None;
      assert url[|h| + 1..] == p;
    } else {
      assert url[|h| + 1 + |p|] == ',';
      assert j == Some(|h| + 1 + |p|);
      assert url[|h| + 1..|h| + 1 + |p|] == p;
    }
  }

  /** The argument `atob` receives: the payload, or the string "undefined"
      that `atob(undefined)` converts its argument to. */
  function AtobArgument(url: string): (a: string)
    ensures ',' in url ==> a == Payload(url).value
    ensures ',' !in url ==> a == "undefined"
  {
    match Payload(url)
    case Some(p) => p
    case None => "undefined"
  }

  /** `/:(.*?);/` matches at `i` and its lazy group ends at `j`: a colon at
      `i`, the first semicolon after it at `j`, and no line terminator between. */
  predicate MatchesAt(s: string, i: int, j: int)
  {
    0 <= i < j < |s| && s[i] == ':' && s[j] == ';' &&
    forall k :: i < k < j ==> s[k] != ';' && !IsLineTerminator(s[k])
  }

  /** A match position has a single end: the first semicolon after the colon. */
  lemma MatchEndUnique(s: string, i: int, j: int, j': int)
    requires MatchesAt(s, i, j) && MatchesAt(s, i, j')
    ensures j == j'
  {
  }

  /** End of the lazy group starting after a colon at `k - 1`: the first `;`,
      provided no line terminator comes before it. */
  function GroupEnd(s: string, k: nat): (r: Option<nat>)
    decreases |s| - k
    ensures r.Some? ==> k <= r.value < |s| && s[r.value] == ';'
    ensures r.Some? ==> forall m :: k <= m < r.value ==> s[m] != ';' && !IsLineTerminator(s[m])
    ensures r.None? ==> forall m :: k <= m < |s| && s[m] == ';' ==> exists t :: k <= t < m && IsLineTerminator(s[t])
  {
    if k >= |s| then None
    else if s[k] == ';' then Some(k)
    else if IsLineTerminator(s[k]) then None
    else GroupEnd(s, k + 1)
  }

  /** The leftmost match of `/:(.*?);/` starting at or after `from`, as the
      positions of its colon and its semicolon. */
  function FindMatch(s: string, from: nat): (r: Option<(nat, nat)>)
    decreases |s| - from
    ensures r.Some? ==> from <= r.value.0 && MatchesAt(s, r.value.0, r.value.1)
    ensures r.Some? ==> forall i, j :: from <= i < r.value.0 ==> !MatchesAt(s, i, j)
    ensures r.None? ==> forall i, j :: from <= i ==> !MatchesAt(s, i, j)
  {
    if from >= |s| then None
    else if s[from] == ':' then
      match GroupEnd(s, from + 1)
      case Some(j) => Some((from, j))
      case None =>
        NoMatchAt(s, from);
        FindMatch(s, from + 1)
    else FindMatch(s, from + 1)
  }

  /** With no terminator-free run from a colon to a semicolon, that colon starts no match. */
  lemma NoMatchAt(s: string, i: nat)
    requires i < |s| && GroupEnd(s, i + 1).None?
    ensures forall j :: !MatchesAt(s, i, j)
  {
  }

  const DefaultMimeType: string := "image/png"

  /** `header.match(/:(.*?);/)?.[1] || "image/png"`. */
  function MimeType(header: string): (m: string)
    ensures m != ""
  {
    match FindMatch(header, 0)
    case Some((i, j)) => if i + 1 < j then header[i + 1..j] else DefaultMimeType
    case None => DefaultMimeType
  }

  /** The MIME type is the group of the leftmost match when that group is
      non-empty, and "image/png" otherwise or when nothing matches. */
  lemma MimeTypeIsLeftmostGroup(header: string, i: nat, j: nat)
    requires MatchesAt(header, i, j)
    requires forall i', j' :: 0 <= i' < i ==> !MatchesAt(header, i', j')
    ensures MimeType(header) == if i + 1 < j then header[i + 1..j] else "image/png"
  {
    var r := FindMatch(header, 0);
    assert r.Some?;
    assert r.value.0 == i;
    MatchEndUnique(header, i, j, r.value.1);
  }

  lemma MimeTypeDefault(header: string)
    requires forall i, j :: !MatchesAt(header, i, j)
    ensures MimeType(header) == "image/png"
  {
  }

  /** A header `data:<type>;base64` yields `<type>` whenever that type is
      non-empty and holds no semicolon or line terminator. */
  lemma DeclaredTypeExtracted(t: string)
    requires t != [] && ';' !in t
    requires forall k :: 0 <= k < |t| ==> !IsLineTerminator(t[k])
    ensures MimeType("data:" + t + ";base64") == t
  {
    var header := "data:" + t + ";base64";
    assert forall k :: 0 <= k < |t| ==> header[5 + k] == t[k];
    assert header[5 + |t|] == ';';
    assert forall k :: 0 <= k < 4 ==> header[k] != ':';
    MimeTypeIsLeftmostGroup(header, 4, 5 + |t|);
    assert header[5..5 + |t|] == t;
  }

  /** The bytes of a decoded string: byte `i` is the code of character `i`. */
  function CharCodes(bstr: seq<Latin1>): (bytes: seq<byte>)
    ensures |bytes| == |bstr|
    ensures forall i :: 0 <= i < |bstr| ==> bytes[i] as int == bstr[i] as int
  {
    seq(|bstr|, i requires 0 <= i < |bstr| => (bstr[i] as int) as byte)
  }

  /** `while (n--) u8arr[n] = bstr.charCodeAt(n)`: fill a new `Uint8Array`
      from the last index down to 0. Storing into a `Uint8Array` reduces
      modulo 256, which leaves codes below 256 as they are. */
  method CopyCharCodes(bstr: seq<Latin1>) returns (u8arr: array<byte>)
    ensures u8arr.Length == |bstr|
    ensures forall i :: 0 <= i < |bstr| ==> u8arr[i] as int == bstr[i] as int
  {
    var n := |bstr|;
    u8arr := new byte[n];
    while n != 0
      invariant 0 <= n <= |bstr| == u8arr.Length
      invariant forall i :: n <= i < |bstr| ==> u8arr[i] as int == bstr[i] as int
    {
      n := n - 1;
      u8arr[n] := (bstr[n] as int % 256) as byte;
    }
  }

  /** A character the File constructor accepts in a type: U+0020 to U+007E. */
  predicate IsPrintableAscii(c: char)
  {
    ' ' <= c <= '~'
  }

  /** ASCII lowercase of one character; any other character is unchanged. */
  function AsciiLower(c: char): (l: char)
    ensures 'A' <= c <= 'Z' ==> l as int == c as int + 32
    ensures !('A' <= c <= 'Z') ==> l == c
  {
    if 'A' <= c <= 'Z' then (c as int + 32) as char else c
  }

  /** The `type` a `File` gets from its options: the given type in ASCII
      lowercase, or the empty string when it holds a character outside
      U+0020 to U+007E (the File API's `File` constructor). */
  function FileType(t: string): (r: string)
    ensures (forall k :: 0 <= k < |t| ==> IsPrintableAscii(t[k])) ==>
      |r| == |t| && forall k :: 0 <= k < |t| ==> r[k] == AsciiLower(t[k])
    ensures (exists k :: 0 <= k < |t| && !IsPrintableAscii(t[k])) ==> r == ""
  {
    if forall k :: 0 <= k < |t| ==> IsPrintableAscii(t[k]) then seq(|t|, k requires 0 <= k < |t| => AsciiLower(t[k]))
    else ""
  }

  /** Normalising a type twice changes nothing more than normalising it once. */
  lemma FileTypeIdempotent(t: string)
    ensures FileType(FileType(t)) == FileType(t)
  {
    if forall k :: 0 <= k < |t| ==> IsPrintableAscii(t[k]) {
      var r := FileType(t);
      assert forall k :: 0 <= k < |r| ==> IsPrintableAscii(r[k]) && AsciiLower(r[k]) == r[k];
    }
  }

  /** A printable type without upper-case letters is kept as it is, and
      one that differs only in letter case gets the same type. */
  lemma FileTypeKeepsLowercase(t: string, u: string)
    requires forall k :: 0 <= k < |t| ==> IsPrintableAscii(t[k]) && !('A' <= t[k] <= 'Z')
    requires |u| == |t| && forall k :: 0 <= k < |u| ==> IsPrintableAscii(u[k]) && AsciiLower(u[k]) == t[k]
    ensures FileType(t) == t && FileType(u) == t
  {
  }

  /** A header `data:<t>;base64` gives a file whose type is `t` normalised. */
  lemma DeclaredTypeLowered(t: string)
    requires t != [] && ';' !in t
    requires forall k :: 0 <= k < |t| ==> !IsLineTerminator(t[k])
    ensures FileType(MimeType("data:" + t + ";base64")) == FileType(t)
  {
    DeclaredTypeExtracted(t);
  }

  /** So `data:IMAGE/PNG;base64` gives a file of type "image/png". */
  lemma UpperCaseTypeLowered()
    ensures FileType("IMAGE/PNG") == "image/png"
  {
    var l, u := "image/png", "IMAGE/PNG";
    assert forall k :: 0 <= k < |u| ==> IsPrintableAscii(u[k]) && AsciiLower(u[k]) == l[k];
    FileTypeKeepsLowercase(l, u);
  }

  /** What `dataURLtoFile` returns, or the error `atob` throws. */
  function FileOf(url: string, filename: string, atob: Atob): (r: Result<File, string>)
    ensures r.Ok? <==> atob(AtobArgument(url)).Some?
    ensures r.Ok? ==> r.value.name == filename && r.value.mimeType == FileType(MimeType(Header(url)))
    ensures r.Ok? ==> var bstr := atob(AtobArgument(url)).value;
      |r.value.bytes| == |bstr| && forall i :: 0 <= i < |bstr| ==> r.value.bytes[i] as int == bstr[i] as int
  {
    match atob(AtobArgument(url))
    case None => Err("InvalidCharacterError")
    case Some(bstr) => Ok(File(CharCodes(bstr), filename, FileType(MimeType(Header(url)))))
  }

  /** `dataURLtoFile(dataUrl, filename)`. */
  method DataUrlToFile(dataUrl: string, filename: string, atob: Atob) returns (r: Result<File, string>)
    ensures r == FileOf(dataUrl, filename, atob)
  {
    var header := Header(dataUrl);
    var mime := MimeType(header);
    var decoded := atob(AtobArgument(dataUrl));
    match decoded {
      case None =>
        r := Err("InvalidCharacterError");
      case Some(bstr) =>
        var u8arr := CopyCharCodes(bstr);
        assert u8arr[..] == CharCodes(bstr);
        r := Ok(File(u8arr[..], filename, FileType(mime)));
    }
  }
}
