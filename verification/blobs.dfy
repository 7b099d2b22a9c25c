/** Image blobs and the `data:` URLs the extension turns them into.
    `FileReader.readAsDataURL` renders a blob as `data:<type>;base64,<payload>`;
    `fetch(dataUrl)` followed by `.blob()` reads one back. */
module Blobs {
  import opened Base
  import opened Text
  import Base64

  /** A browser Blob: its MIME type and its bytes. */
  datatype Blob = Blob(mime: string, bytes: seq<Byte>)

  function Size(b: Blob): nat {
    |b.bytes|
  }

  /** The type `readAsDataURL` writes for a blob with an empty type. */
  const OctetStream: string := "application/octet-stream"
  /** The type `fetch` gives a `data:` URL whose header names none. */
  const FetchDefaultMime: string := "text/plain;charset=US-ASCII"
  const Base64Marker: string := ";base64"

  predicate NoComma(s: string) {
    forall i :: 0 <= i < |s| ==> s[i] != ','
  }

  predicate EndsWith(s: string, suffix: string) {
    |suffix| <= |s| && s[|s| - |suffix|..] == suffix
  }

  /** `data:<mime>;base64,<payload>`, as the template literal in
      src/lib/export_import.ts:101 builds it. */
  function DataUrl(mime: string, payload: string): string {
    "data:" + mime + Base64Marker + "," + payload
  }

  /** `FileReader.readAsDataURL(blob)`. */
  function ReadAsDataUrl(b: Blob): (s: string)
    ensures StartsWith(s, "data:")
    ensures |s| > 5 + |Base64Marker|
  {
    DataUrl(if b.mime == "" then OctetStream else b.mime, Base64.Encode(b.bytes))
  }

  /** A header type with the `type/subtype` shape; `fetch` cannot parse a
      type without a slash (the empty type, or `undefined`). */
  predicate ParsableMime(mime: string) {
    FirstIndexOf(mime, '/').Some?
  }

  /** The blob type `fetch` reports for a header type: one it cannot parse
      is replaced by `text/plain;charset=US-ASCII`. */
  function FetchedMime(mime: string): (m: string)
    ensures ParsableMime(m) && (m == mime || m == FetchDefaultMime)
    ensures m == mime <==> ParsableMime(mime)
    ensures NoComma(mime) ==> NoComma(m)
  {
    if ParsableMime(mime) then mime
    else DefaultMimeParsable(); FetchDefaultMime
  }

  /** The replacement type has the `type/subtype` shape and no comma. */
  lemma DefaultMimeParsable()
    ensures ParsableMime(FetchDefaultMime) && NoComma(FetchDefaultMime)
  {
    assert FetchDefaultMime[4] == '/';
    assert forall j :: 0 <= j < |FetchDefaultMime| ==> FetchDefaultMime[j] != ',';
  }

  /** `fetch(url)` then `.blob()` on a base64 `data:` URL; `None` is the
      rejected promise. The header ends at the first comma and must end in
      `;base64`; the payload must be well-formed base64. */
  function FetchDataUrl(s: string): (r: Option<Blob>)
    ensures r.Some? ==> StartsWith(s, "data:")
    ensures r.Some? ==> NoComma(r.value.mime) && ParsableMime(r.value.mime)
  {
    if !StartsWith(s, "data:") then None
    else match FirstIndexOf(s, ',')
      case None => None
      case Some(i) =>
        if i < 5 then None
        else
          var header := s[5..i];
          if !EndsWith(header, Base64Marker) then None
          else
            var mime := header[..|header| - |Base64Marker|];
            assert forall j :: 0 <= j < |mime| ==> mime[j] == s[5 + j];
            assert NoComma(mime);
            match Base64.Decode(s[i + 1..])
            case None => None
            case Some(bytes) => Some(Blob(FetchedMime(mime), bytes))
  }

  /** `url.split(',')[1]`: the text between the first comma and the next one
      (or the end); `None` stands for `undefined` when there is no comma. */
  function SecondField(s: string): (r: Option<string>)
    ensures r.Some? ==> NoComma(r.value)
  {
    match FirstIndexOf(s, ',')
    case None => None
    case Some(i) =>
      var rest := s[i + 1..];
      match FirstIndexOf(rest, ',')
      case None => Some(rest)
      case Some(j) => Some(rest[..j])
  }

  lemma FirstCommaAfter(a: string, b: string)
    requires NoComma(a)
    ensures FirstIndexOf(a + "," + b, ',') == Some(|a|)
  {
    var s := a + "," + b;
    assert s[|a|] == ',';
    assert forall j :: 0 <= j < |a| ==> s[j] == a[j];
  }

  /** The comma that ends a data URL's header is the first one. */
  lemma DataUrlComma(mime: string, payload: string)
    requires NoComma(mime)
    ensures FirstIndexOf(DataUrl(mime, payload), ',') == Some(5 + |mime| + |Base64Marker|)
    ensures DataUrl(mime, payload)[5 + |mime| + |Base64Marker| + 1..] == payload
    ensures DataUrl(mime, payload)[5..5 + |mime| + |Base64Marker|] == mime + Base64Marker
  {
    var head := "data:" + mime + Base64Marker;
    assert DataUrl(mime, payload) == head + "," + payload;
    assert NoComma(head) by {
      forall j | 0 <= j < |head|
        ensures head[j] != ','
      {
        if j < 5 {
          assert head[j] == "data:"[j];
        } else if j < 5 + |mime| {
          assert head[j] == mime[j - 5];
        } else {
          assert head[j] == Base64Marker[j - 5 - |mime|];
        }
      }
    }
    FirstCommaAfter(head, payload);
  }

  /** Re-prefixing a base64 payload and fetching it recovers the bytes:
      the decoding half of the image round trip. */
  lemma FetchDataUrlOfEncoded(mime: string, bytes: seq<Byte>)
    requires NoComma(mime)
    ensures FetchDataUrl(DataUrl(mime, Base64.Encode(bytes))) == Some(Blob(FetchedMime(mime), bytes))
  {
    var s := DataUrl(mime, Base64.Encode(bytes));
    DataUrlComma(mime, Base64.Encode(bytes));
    Base64.DecodeEncode(bytes);
    var header := s[5..5 + |mime| + |Base64Marker|];
    assert EndsWith(header, Base64Marker);
    assert header[..|header| - |Base64Marker|] == mime;
    assert Base64.Decode(s[5 + |mime| + |Base64Marker| + 1..]) == Some(bytes);
  }

  /** A blob read as a data URL and fetched back is the same blob, provided
      its type has the `type/subtype` shape and no comma (`image/webp`,
      `image/jpeg`). */
  lemma FetchReadRoundTrip(b: Blob)
    requires ParsableMime(b.mime) && NoComma(b.mime)
    ensures FetchDataUrl(ReadAsDataUrl(b)) == Some(b)
  {
    FetchDataUrlOfEncoded(b.mime, b.bytes);
  }

  /** Cutting a data URL at its commas leaves exactly the base64 payload:
      the encoding half of the export round trip. */
  lemma SecondFieldOfDataUrl(mime: string, bytes: seq<Byte>)
    requires NoComma(mime)
    ensures SecondField(DataUrl(mime, Base64.Encode(bytes))) == Some(Base64.Encode(bytes))
  {
    var p := Base64.Encode(bytes);
    DataUrlComma(mime, p);
    Base64.EncodeHasNoComma(bytes);
  }
}
