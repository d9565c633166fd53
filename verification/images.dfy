/** The classification inside `compute_image_hashes`: for every `<img>` tag,
    decide whether an entry is recorded under its `src` and what text it
    holds. Fetching, decoding and hashing are parameters. */
module Images {
  import opened Base

  const MinImageWidth: nat := 50
  const MinImageHeight: nat := 50

  /** The result of `session.get(src)`: the request raised, or a response
      arrived with a status code and a body. */
  datatype Fetched = TransportError(reason: string) | Reply(status: int, content: seq<byte>)

  /** The result of opening the body as an image. */
  datatype Decoded = DecodeFailed(reason: string) | Image(width: nat, height: nat)

  /** One `<img>` element: its `src` attribute, if any, and what fetching it
      gives. */
  datatype ImageTag = ImageTag(src: Option<string>, fetched: Fetched)

  predicate IsHexDigit(c: char) {
    '0' <= c <= '9' || 'a' <= c <= 'f'
  }

  /** The shape of `hashlib.md5(...).hexdigest()`. */
  predicate IsHexDigest(s: string) {
    |s| == 32 && forall i :: 0 <= i < |s| ==> IsHexDigit(s[i])
  }

  type HexDigest = s: string | IsHexDigest(s) witness "00000000000000000000000000000000"

  /** What can be recorded for an image. */
  datatype Entry =
    | Digest(hex: HexDigest)
    | RequestError(message: string)
    | StatusError(code: int)
    | ImageError(message: string)

  // ---------------------------------------------------------------------------
  // Decimal text of a status code, `str(int)`

  predicate IsDigit(c: char) {
    '0' <= c <= '9'
  }

  predicate AllDigits(s: string) {
    forall i :: 0 <= i < |s| ==> IsDigit(s[i])
  }

  function NatToDecimal(n: nat): (r: string)
    ensures r != [] && AllDigits(r)
    decreases n
  {
    if n < 10 then [('0' as int + n) as char]
    else NatToDecimal(n / 10) + [('0' as int + n % 10) as char]
  }

  function IntToDecimal(i: int): (r: string)
    ensures r != []
    ensures i < 0 <==> r[0] == '-'
  {
    if i < 0 then "-" + NatToDecimal(-i) else NatToDecimal(i)
  }

  /** Value of a digit string, most significant digit first. */
  function DigitsValue(s: string): nat
    requires AllDigits(s)
  {
    if s == [] then 0 else 10 * DigitsValue(s[..|s| - 1]) + (s[|s| - 1] as int - '0' as int)
  }

  /** Reads back an optionally negative decimal integer. */
  function ParseInt(s: string): Option<int> {
    if |s| > 1 && s[0] == '-' && AllDigits(s[1..]) then Some(-(DigitsValue(s[1..]) as int))
    else if s != [] && AllDigits(s) then Some(DigitsValue(s))
    else None
  }

  lemma {:induction false} NatDecimalRoundTrip(n: nat)
    ensures DigitsValue(NatToDecimal(n)) == n
    decreases n
  {
    if n >= 10 {
      var s := NatToDecimal(n);
      NatDecimalRoundTrip(n / 10);
      assert s[..|s| - 1] == NatToDecimal(n / 10);
    }
  }

  lemma IntDecimalRoundTrip(i: int)
    ensures ParseInt(IntToDecimal(i)) == Some(i)
  {
    var s := IntToDecimal(i);
    if i < 0 {
      assert s[1..] == NatToDecimal(-i);
      NatDecimalRoundTrip(-i);
    } else {
      NatDecimalRoundTrip(i);
    }
  }

  // ---------------------------------------------------------------------------
  // The stored text of an entry and reading it back

  /** The string stored in `img_hashes[src]`. */
  function Render(e: Entry): string {
    match e
    case Digest(hex) => hex
    case RequestError(m) => "Error:" + m
    case StatusError(code) => "ErrorStatus:" + IntToDecimal(code)
    case ImageError(m) => "ErrorImage:" + m
  }

  /** Reads a stored string back as an entry, testing the longer prefixes
      first. */
  function ParseEntry(s: string): Option<Entry> {
    if StartsWith(s, "ErrorStatus:") then
      match ParseInt(s[12..])
      case Some(code) => Some(StatusError(code))
      case None => None
    else if StartsWith(s, "ErrorImage:") then Some(ImageError(s[11..]))
    else if StartsWith(s, "Error:") then Some(RequestError(s[6..]))
    else if IsHexDigest(s) then Some(Digest(s))
    else None
  }

  /** Every stored string reads back as the entry it was rendered from, so the
      four kinds of entry never share a text. */
  lemma RenderRoundTrip(e: Entry)
    ensures ParseEntry(Render(e)) == Some(e)
  {
    var s := Render(e);
    match e {
      case Digest(hex) =>
        assert IsHexDigit(s[0]);
        DiffersAt(s, "ErrorStatus:", 0);
        DiffersAt(s, "ErrorImage:", 0);
        DiffersAt(s, "Error:", 0);
      case RequestError(m) =>
        assert s[5] == ':';
        DiffersAt(s, "ErrorStatus:", 5);
        DiffersAt(s, "ErrorImage:", 5);
        assert s[..6] == "Error:" && s[6..] == m;
      case StatusError(code) =>
        assert s[..12] == "ErrorStatus:" && s[12..] == IntToDecimal(code);
        IntDecimalRoundTrip(code);
      case ImageError(m) =>
        assert s[5] == 'I';
        DiffersAt(s, "ErrorStatus:", 5);
        assert s[..11] == "ErrorImage:" && s[11..] == m;
    }
  }

  lemma RenderInjective(e1: Entry, e2: Entry)
    ensures Render(e1) == Render(e2) <==> e1 == e2
  {
    RenderRoundTrip(e1);
    RenderRoundTrip(e2);
  }

  // ---------------------------------------------------------------------------
  // Classification

  /** Whether a decoded image is below the size threshold in either dimension. */
  predicate TooSmall(d: Decoded) {
    d.Image? && (d.width < MinImageWidth || d.height < MinImageHeight)
  }

  /** The `try` block for one image with a non-empty `src`. No entry exactly
      when the response is 200 and the image decodes to a size below the
      threshold. */
  function Classify(fetched: Fetched, decode: seq<byte> -> Decoded, md5: seq<byte> -> HexDigest): (r: Option<Entry>)
    ensures r.None? <==> fetched.Reply? && fetched.status == 200 && TooSmall(decode(fetched.content))
  {
    match fetched
    case TransportError(reason) => Some(RequestError(reason))
    case Reply(status, content) =>
      if status != 200 then Some(StatusError(status))
      else
        match decode(content)
        case DecodeFailed(reason) => Some(ImageError(reason))
        case Image(w, h) =>
          if w < MinImageWidth || h < MinImageHeight then None
          else Some(Digest(md5(content)))
  }

  /** Whether a tag has a usable `src`: present and not empty. */
  predicate HasSrc(tag: ImageTag) {
    tag.src.Some? && tag.src.value != ""
  }

  /** Whether `tag` records an entry under `src`. */
  predicate Records(tag: ImageTag, src: string, decode: seq<byte> -> Decoded, md5: seq<byte> -> HexDigest) {
    HasSrc(tag) && tag.src.value == src && Classify(tag.fetched, decode, md5).Some?
  }

  /** One iteration of the loop over the `<img>` tags. */
  function Step(acc: map<string, string>, tag: ImageTag, decode: seq<byte> -> Decoded, md5: seq<byte> -> HexDigest): map<string, string> {
    if !HasSrc(tag) then acc
    else
      match Classify(tag.fetched, decode, md5)
      case None => acc
      case Some(e) => acc[tag.src.value := Render(e)]
  }

  /** `compute_image_hashes`: the dictionary after every tag, in document
      order. */
  function ImageHashes(tags: seq<ImageTag>, decode: seq<byte> -> Decoded, md5: seq<byte> -> HexDigest): (r: map<string, string>)
    ensures forall src :: src in r ==> src != ""
  {
    if tags == [] then map[]
    else Step(ImageHashes(tags[..|tags| - 1], decode, md5), tags[|tags| - 1], decode, md5)
  }

  /** `tags[i]` records under `src` and no later tag does. */
  predicate LastRecorder(tags: seq<ImageTag>, src: string, i: int, decode: seq<byte> -> Decoded, md5: seq<byte> -> HexDigest) {
    && 0 <= i < |tags|
    && Records(tags[i], src, decode, md5)
    && forall k :: i < k < |tags| ==> !Records(tags[k], src, decode, md5)
  }

  /** One loop iteration touches at most the key of its own tag. */
  lemma StepEffect(acc: map<string, string>, tag: ImageTag, src: string, decode: seq<byte> -> Decoded, md5: seq<byte> -> HexDigest)
    ensures Records(tag, src, decode, md5) ==>
      src in Step(acc, tag, decode, md5) && Step(acc, tag, decode, md5)[src] == Render(Classify(tag.fetched, decode, md5).value)
    ensures !Records(tag, src, decode, md5) ==>
      (src in Step(acc, tag, decode, md5) <==> src in acc) && (src in acc ==> Step(acc, tag, decode, md5)[src] == acc[src])
  {
  }

  /** There is a key exactly when some tag records under it. */
  lemma {:induction false} ImageHashesKeys(tags: seq<ImageTag>, src: string, decode: seq<byte> -> Decoded, md5: seq<byte> -> HexDigest)
    ensures src in ImageHashes(tags, decode, md5) <==> exists i :: 0 <= i < |tags| && Records(tags[i], src, decode, md5)
    decreases |tags|
  {
    if tags != [] {
      var n := |tags| - 1;
      var init, last := tags[..n], tags[n];
      var before := ImageHashes(init, decode, md5);
      assert ImageHashes(tags, decode, md5) == Step(before, last, decode, md5);
      ImageHashesKeys(init, src, decode, md5);
      StepEffect(before, last, src, decode, md5);
      if Records(last, src, decode, md5) {
        assert Records(tags[n], src, decode, md5);
      } else {
        if i :| 0 <= i < |tags| && Records(tags[i], src, decode, md5) {
          assert init[i] == tags[i];
        }
        if i :| 0 <= i < |init| && Records(init[i], src, decode, md5) {
          assert init[i] == tags[i];
        }
      }
    }
  }

  /** The entry stored under `src` comes from the LAST tag that records one
      there; a later tag with the same `src` that is skipped (no `src`, or a
      small image) leaves it in place. */
  lemma {:induction false} ImageHashesLastWins(tags: seq<ImageTag>, src: string, decode: seq<byte> -> Decoded, md5: seq<byte> -> HexDigest)
    requires src in ImageHashes(tags, decode, md5)
    ensures exists i ::
      && LastRecorder(tags, src, i, decode, md5)
      && ImageHashes(tags, decode, md5)[src] == Render(Classify(tags[i].fetched, decode, md5).value)
    decreases |tags|
  {
    var n := |tags| - 1;
    var init, last := tags[..n], tags[n];
    var before := ImageHashes(init, decode, md5);
    assert ImageHashes(tags, decode, md5) == Step(before, last, decode, md5);
    StepEffect(before, last, src, decode, md5);
    if Records(last, src, decode, md5) {
      assert LastRecorder(tags, src, n, decode, md5);
    } else {
      ImageHashesLastWins(init, src, decode, md5);
      var i :| LastRecorder(init, src, i, decode, md5) && before[src] == Render(Classify(init[i].fetched, decode, md5).value);
      assert init[i] == tags[i];
      forall k | i < k < |tags| ensures !Records(tags[k], src, decode, md5) {
        if k < n {
          assert init[k] == tags[k];
        }
      }
      assert LastRecorder(tags, src, i, decode, md5);
    }
  }

  /** The text recorded for each kind of outcome. */
  lemma RecordedText(fetched: Fetched, decode: seq<byte> -> Decoded, md5: seq<byte> -> HexDigest)
    ensures fetched.TransportError? ==>
      var t := Render(Classify(fetched, decode, md5).value);
      StartsWith(t, "Error:") && t[6..] == fetched.reason
    ensures fetched.Reply? && fetched.status != 200 ==>
      Render(Classify(fetched, decode, md5).value) == "ErrorStatus:" + IntToDecimal(fetched.status)
    ensures fetched.Reply? && fetched.status == 200 && decode(fetched.content).DecodeFailed? ==>
      var t := Render(Classify(fetched, decode, md5).value);
      StartsWith(t, "ErrorImage:") && t[11..] == decode(fetched.content).reason
    ensures fetched.Reply? && fetched.status == 200 && decode(fetched.content).Image? && !TooSmall(decode(fetched.content)) ==>
      Render(Classify(fetched, decode, md5).value) == md5(fetched.content)
  {
    if fetched.TransportError? {
      var t := Render(Classify(fetched, decode, md5).value);
      assert t[..6] == "Error:";
    } else if fetched.status == 200 && decode(fetched.content).DecodeFailed? {
      var t := Render(Classify(fetched, decode, md5).value);
      assert t[..11] == "ErrorImage:";
    }
  }

  /** The size threshold is strict: 49 pixels in either dimension is skipped,
      50 by 50 is kept. */
  lemma SizeThreshold(content: seq<byte>, md5: seq<byte> -> HexDigest)
    ensures Classify(Reply(200, content), _ => Image(49, 500), md5).None?
    ensures Classify(Reply(200, content), _ => Image(500, 49), md5).None?
    ensures Classify(Reply(200, content), _ => Image(50, 50), md5) == Some(Digest(md5(content)))
  {
  }
}
