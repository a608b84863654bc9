/** File content: the forms a builder accepts it in, and the byte encodings between text and
    stored bytes that the model covers ('binary', the default, and 'ascii'). */
module Content {
  import opened Wrappers
  import opened Tree
  import opened Build

  /** The content argument of `file`: omitted, raw bytes, or text to be encoded. The options
      form `{content, atime, mtime, ctime}` passes its content here and its timestamps apart. */
  datatype FileContent = NoContent | Bytes(bytes: seq<Byte>) | Text(text: string)

  datatype Encoding = Binary | Ascii

  /** Writing text keeps the low eight bits of each character; 'binary' and 'ascii' agree on this. */
  function Encode(s: string): (b: seq<Byte>)
    ensures |b| == |s|
    ensures forall i :: 0 <= i < |s| ==> b[i] as int == s[i] as int % 256
  {
    if s == [] then [] else [(s[0] as int % 256) as Byte] + Encode(s[1..])
  }

  /** Reading under 'binary' maps each byte to the character with that code; 'ascii' first
      clears the high bit. */
  function DecodeByte(x: Byte, e: Encoding): char {
    match e
    case Binary => (x as int) as char
    case Ascii => (x as int % 128) as char
  }

  function Decode(b: seq<Byte>, e: Encoding): (s: string)
    ensures |s| == |b|
    ensures forall i :: 0 <= i < |b| ==> s[i] == DecodeByte(b[i], e)
  {
    if b == [] then [] else [DecodeByte(b[0], e)] + Decode(b[1..], e)
  }

  /** The characters an encoding carries unchanged. */
  function Limit(e: Encoding): nat {
    match e
    case Binary => 256
    case Ascii => 128
  }

  predicate Fits(s: string, e: Encoding) {
    forall i :: 0 <= i < |s| ==> s[i] as int < Limit(e)
  }

  /** The bytes stored for a content argument; omitted content is an empty file. */
  function ContentBytes(c: FileContent): (r: seq<Byte>)
    ensures c.Text? ==> |r| == |c.text|
    ensures c.Text? && Fits(c.text, Binary) ==> Decode(r, Binary) == c.text
    ensures c.Text? && Fits(c.text, Ascii) ==> Decode(r, Ascii) == c.text
  {
    match c
    case NoContent => []
    case Bytes(b) => b
    case Text(s) =>
      var b := Encode(s);
      assert Fits(s, Binary) ==> Decode(b, Binary) == s by {
        if Fits(s, Binary) { DecodeEncode(s, Binary); }
      }
      assert Fits(s, Ascii) ==> Decode(b, Ascii) == s by {
        if Fits(s, Ascii) { DecodeEncode(s, Ascii); }
      }
      b
  }

  /** A character the encoding carries is stored as its own code and read back as itself. */
  lemma DecodeEncodeChar(c: char, x: Byte, e: Encoding)
    requires c as int < Limit(e) && x as int == c as int % 256
    ensures DecodeByte(x, e) == c
  {
    assert x as int == c as int;
  }

  /** Text the encoding can carry reads back as the same text. */
  lemma DecodeEncode(s: string, e: Encoding)
    requires Fits(s, e)
    ensures Decode(Encode(s), e) == s
  {
    var b := Encode(s);
    forall i | 0 <= i < |s| ensures DecodeByte(b[i], e) == s[i] {
      DecodeEncodeChar(s[i], b[i], e);
    }
  }

  /** Any bytes read as 'binary' text and written back are the same bytes. */
  lemma EncodeDecode(b: seq<Byte>)
    ensures Encode(Decode(b, Binary)) == b
  {
    var s := Decode(b, Binary);
    forall i | 0 <= i < |b| ensures Encode(s)[i] == b[i] {
      assert s[i] as int == b[i] as int;
    }
  }

  /** A file written with text that fits the encoding reads back, under that encoding, as
      the same text. */
  lemma FileTextRoundTrip(nodes: seq<Node>, segs: seq<string>, s: string, e: Encoding, opts: TimeOpts)
    requires Valid(nodes) && PutFile(nodes, segs, ContentBytes(Text(s)), opts).Ok? && Fits(s, e)
    ensures var after := PutFile(nodes, segs, ContentBytes(Text(s)), opts).value.nodes;
      ReadFileOf(after, segs).Ok? && Decode(ReadFileOf(after, segs).value, e) == s
  {
    FileStoresContent(nodes, segs, Encode(s), opts);
    DecodeEncode(s, e);
  }
}
