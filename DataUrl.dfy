/** The payload clean-up of `submitBase64` and `asyncSubmitBase64`: a data
    URL such as `data:image/png;base64,<payload>` is cut at its commas and
    the second piece is kept; a string without a comma is sent as it is. */
module DataUrl {
  import opened JsString

  /** The header a browser puts in front of a PNG payload. */
  const PngHeader: string := "data:image/png;base64,"

  /** `data.split(",")`, then piece 1 when there is more than one piece. */
  function StripDataUrl(data: string): (r: string)
    ensures ',' !in r
    ensures ',' !in data ==> r == data
    ensures |r| <= |data|
  {
    var split := Split(data, ',');
    SplitPiecesLackSep(data, ',');
    SplitSingle(data, ',');
    if |split| > 1 then
      JoinSplit(data, ',');
      JoinLength(split, ',');
      split[1]
    else data
  }

  /** The second piece of a join is no longer than the joined string. */
  lemma JoinLength(pieces: seq<string>, sep: char)
    requires |pieces| > 1
    ensures |pieces[1]| <= |Join(pieces, sep)|
  {
    var rest := pieces[1..];
    assert rest[0] == pieces[1];
    if |rest| > 1 {
      assert Join(rest, sep) == rest[0] + [sep] + Join(rest[1..], sep);
    }
  }

  /** Stripping an already stripped payload changes nothing. */
  lemma StripIdempotent(data: string)
    ensures StripDataUrl(StripDataUrl(data)) == StripDataUrl(data)
  {
  }

  /** Whatever precedes the first comma is dropped, and whatever follows the
      second: the kept text is exactly the piece between them (or between
      the first comma and the end). */
  lemma StripSecondPiece(head: string, payload: string, rest: string)
    requires ',' !in head && ',' !in payload
    requires rest == [] || rest[0] == ','
    ensures StripDataUrl(head + [','] + payload + rest) == payload
  {
    var data := head + [','] + payload + rest;
    assert data == head + [','] + (payload + rest);
    SplitAfterFirst(head, ',', payload + rest);
    if rest == [] {
      assert payload + rest == payload;
      SplitSingle(payload, ',');
    } else {
      var tail := rest[1..];
      assert payload + rest == payload + [','] + tail;
      SplitAfterFirst(payload, ',', tail);
    }
  }

  /** A PNG data URL and its bare payload are uploaded identically. */
  lemma PngHeaderDropped(payload: string)
    requires ',' !in payload
    ensures StripDataUrl(PngHeader + payload) == payload == StripDataUrl(payload)
  {
    var head := "data:image/png;base64";
    assert PngHeader + payload == head + [','] + payload + [];
    StripSecondPiece(head, payload, []);
  }

  /** With several commas only the text between the first two is kept. */
  lemma StripManyCommas(a: string, b: string, rest: string)
    requires ',' !in a && ',' !in b
    ensures StripDataUrl(a + [','] + b + [','] + rest) == b
  {
    assert a + [','] + b + [','] + rest == a + [','] + b + ([','] + rest);
    StripSecondPiece(a, b, [','] + rest);
  }
}
