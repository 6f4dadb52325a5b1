/**
  The object store side of a download: where a blob lives in the bucket and
  how the S3 download manager is configured. A blob's key is its UUID's
  32 hexadecimal digits under `_blob/`, fanned out over two directory levels
  named after the first two pairs of digits.

  The goroutine that streams the object into a pipe is not modelled; a
  download starts by building the `GetObjectInput` below.
*/
module BlobDownload {
  import opened Base
  import opened GoStrings
  import GoPath
  import opened Uuids

  /** The top-level directory of every blob key. */
  const KeyRoot := "_blob"

  /** The configuration `NewDownloader` gives the S3 download manager. */
  datatype Config = Config(partSize: int, concurrency: int)

  /** `Downloader`: a bucket and a configured download manager. */
  datatype Downloader = Downloader(bucket: string, config: Config)

  /** The request sent to the object store: `s3.GetObjectInput` with its key and bucket. */
  datatype GetObjectInput = GetObjectInput(key: string, bucket: string)

  /** What `Download` starts and what it returns at once. */
  datatype Started = Started(request: GetObjectInput, err: Option<string>)

  /** The digits of a UUID: its text form with the first four '-' removed (`strings.Replace(id.String(), "-", "", 4)`). */
  function Digits(id: Uuid): (r: string)
    ensures |r| >= 32
  {
    ReplaceN(String(id), '-', 4)
  }

  /** The object key of a blob: `path.Join("_blob", s[:2], s[2:4], s[4:])`. */
  function Key(id: Uuid): (r: string)
    ensures r == KeyRoot + "/" + Hex(id)[..2] + "/" + Hex(id)[2..4] + "/" + Hex(id)[4..]
  {
    var s := Digits(id);
    KeyForm(id);
    GoPath.Join([KeyRoot, s[..2], s[2..4], s[4..]])
  }

  /** `NewDownloader`: 16 MiB parts, fetched one at a time so that writes reach the pipe in order. */
  function NewDownloader(bucket: string): (r: Downloader)
    ensures r.bucket == bucket
    ensures r.config.partSize == 16 * 1024 * 1024
    ensures r.config.concurrency == 1
  {
    Downloader(bucket, Config(0x100_0000, 1))
  }

  /** `Downloader.Download`: the request for the blob's key in the downloader's bucket; the immediate error is always nil. */
  function Download(d: Downloader, id: Uuid): (r: Started)
    ensures r.err == None
    ensures r.request.bucket == d.bucket
    ensures r.request.key == KeyRoot + "/" + Hex(id)[..2] + "/" + Hex(id)[2..4] + "/" + Hex(id)[4..]
  {
    Started(GetObjectInput(Key(id), d.bucket), None)
  }

  // ---- properties of the key ----

  /** A string of hexadecimal digits has no '-'. */
  lemma NoHyphenInHex(bs: seq<byte>)
    ensures '-' !in Hex(bs)
  {
  }

  /** Groups joined by '-'. */
  function Hyphenated(groups: seq<string>): string
    requires |groups| > 0
    decreases |groups|
  {
    if |groups| == 1 then groups[0] else groups[0] + ['-'] + Hyphenated(groups[1..])
  }

  /** Groups joined with nothing between them. */
  function Concat(groups: seq<string>): string
    decreases |groups|
  {
    if groups == [] then "" else groups[0] + Concat(groups[1..])
  }

  /** Removing the separators from hyphen-free groups joined by '-' joins the groups. */
  lemma {:induction false} RemoveHyphens(groups: seq<string>)
    requires |groups| > 0
    requires forall k :: 0 <= k < |groups| ==> '-' !in groups[k]
    ensures ReplaceN(Hyphenated(groups), '-', |groups| - 1) == Concat(groups)
    decreases |groups|
  {
    if |groups| == 1 {
      assert Concat(groups[1..]) == "";
      assert groups[0] + "" == groups[0];
    } else {
      var rest := groups[1..];
      assert Hyphenated(groups) == groups[0] + ['-'] + Hyphenated(rest);
      assert Concat(groups) == groups[0] + Concat(rest);
      assert forall k :: 0 <= k < |rest| ==> '-' !in rest[k] by {
        forall k | 0 <= k < |rest|
          ensures '-' !in rest[k]
        {
          assert rest[k] == groups[k + 1];
        }
      }
      RemoveHyphens(rest);
      HyphenStep(groups[0], Hyphenated(rest), Concat(rest), |groups| - 2);
    }
  }

  /** One group and its separator in front of a hyphenated tail whose hyphens come out as `c`. */
  lemma HyphenStep(g: string, h: string, c: string, n: nat)
    requires '-' !in g && ReplaceN(h, '-', n) == c
    ensures ReplaceN(g + ['-'] + h, '-', n + 1) == g + c
  {
    ReplaceNSkip(g, '-', h, n);
  }

  /** The text form of five groups, and their concatenation. */
  lemma FiveGroups(a: string, b: string, c: string, d: string, e: string)
    ensures Hyphenated([a, b, c, d, e]) == a + "-" + b + "-" + c + "-" + d + "-" + e
    ensures Concat([a, b, c, d, e]) == a + b + c + d + e
  {
    assert [a, b, c, d, e][1..] == [b, c, d, e];
    assert [b, c, d, e][1..] == [c, d, e];
    assert [c, d, e][1..] == [d, e];
    assert [d, e][1..] == [e];
    assert [e][1..] == [];
    assert Hyphenated([e]) == e;
    assert Hyphenated([d, e]) == d + ['-'] + e;
    assert Hyphenated([c, d, e]) == c + ['-'] + (d + ['-'] + e);
    assert Hyphenated([b, c, d, e]) == b + ['-'] + (c + ['-'] + (d + ['-'] + e));
    assert Hyphenated([a, b, c, d, e]) == a + ['-'] + (b + ['-'] + (c + ['-'] + (d + ['-'] + e)));
    assert Concat([e]) == e + "" == e;
    assert Concat([d, e]) == d + e;
    assert Concat([c, d, e]) == c + (d + e);
    assert Concat([b, c, d, e]) == b + (c + (d + e));
    assert Concat([a, b, c, d, e]) == a + (b + (c + (d + e)));
  }

  /** Removing the four hyphens of the text form leaves exactly the 32 hexadecimal digits. */
  lemma DigitsAreHex(id: Uuid)
    ensures Digits(id) == Hex(id)
  {
    NoHyphenInHex(id[..4]);
    NoHyphenInHex(id[4..6]);
    NoHyphenInHex(id[6..8]);
    NoHyphenInHex(id[8..10]);
    NoHyphenInHex(id[10..]);
    var a, b, c, d, e := Hex(id[..4]), Hex(id[4..6]), Hex(id[6..8]), Hex(id[8..10]), Hex(id[10..]);
    FiveGroups(a, b, c, d, e);
    RemoveHyphens([a, b, c, d, e]);
    HexGroups(id);
  }

  /** A non-empty run of hexadecimal digits is a path name that cleaning keeps. */
  lemma HexIsName(h: string)
    requires |h| > 0 && forall k :: 0 <= k < |h| ==> IsHexDigit(h[k])
    ensures GoPath.IsName(h)
  {
    assert IsHexDigit(h[0]);
  }

  /** `path.Join` of the four key parts is `_blob/` followed by the digits, with a '/' after the second and the fourth. */
  lemma KeyForm(id: Uuid)
    ensures var h, s := Hex(id), Digits(id);
      GoPath.Join([KeyRoot, s[..2], s[2..4], s[4..]]) == KeyRoot + "/" + h[..2] + "/" + h[2..4] + "/" + h[4..]
  {
    var h := Hex(id);
    DigitsAreHex(id);
    var elems := [KeyRoot, h[..2], h[2..4], h[4..]];
    HexIsName(h[..2]);
    HexIsName(h[2..4]);
    HexIsName(h[4..]);
    assert GoPath.AllNames(elems) by {
      assert GoPath.IsName(KeyRoot);
    }
    GoPath.JoinNames(elems);
    JoinFour(KeyRoot, h[..2], h[2..4], h[4..]);
  }

  /** Four elements joined by '/'. */
  lemma JoinFour(a: string, b: string, c: string, d: string)
    ensures GoPath.JoinSegs([a, b, c, d]) == a + "/" + b + "/" + c + "/" + d
  {
    assert [a, b, c, d][1..] == [b, c, d];
    assert [b, c, d][1..] == [c, d];
    assert [c, d][1..] == [d];
    assert GoPath.JoinSegs([c, d]) == c + "/" + d;
    assert GoPath.JoinSegs([b, c, d]) == b + "/" + (c + "/" + d);
    assert a + "/" + (b + "/" + (c + "/" + d)) == a + "/" + b + "/" + c + "/" + d;
  }

  /** Four '/'-free parts joined by '/': where the three separators are, and that there are no others. */
  lemma Slashed(w: string, x: string, y: string, z: string)
    requires '/' !in w && '/' !in x && '/' !in y && '/' !in z
    ensures var k := w + "/" + x + "/" + y + "/" + z;
      && |k| == |w| + |x| + |y| + |z| + 3
      && k[|w|] == '/' && k[|w| + 1 + |x|] == '/' && k[|w| + 2 + |x| + |y|] == '/'
      && Occurrences(k, '/') == 3
  {
    SlashThenPart(w, x);
    SlashThenPart(w + "/" + x, y);
    SlashThenPart(w + "/" + x + "/" + y, z);
  }

  /** Appending '/' and a '/'-free part adds one '/', at the old end. */
  lemma SlashThenPart(a: string, b: string)
    requires '/' !in b
    ensures var k := a + "/" + b;
      |k| == |a| + 1 + |b| && k[|a|] == '/' && Occurrences(k, '/') == Occurrences(a, '/') + 1
  {
    assert Occurrences("/", '/') == 1;
    OccurrencesAppend(a, "/", '/');
    OccurrencesAppend(a + "/", b, '/');
  }

  /** Every key is 40 bytes long with exactly three '/', at offsets 5, 8 and 11. */
  lemma KeyShape(id: Uuid)
    ensures |Key(id)| == 40
    ensures Key(id)[5] == '/' && Key(id)[8] == '/' && Key(id)[11] == '/'
    ensures Occurrences(Key(id), '/') == 3
  {
    var h := Hex(id);
    HexIsName(h[..2]);
    HexIsName(h[2..4]);
    HexIsName(h[4..]);
    Slashed(KeyRoot, h[..2], h[2..4], h[4..]);
  }

  /** Strips `_blob/` and the two inner '/' from a 40-byte key. */
  function StripKey(key: string): (r: string)
    requires |key| == 40
  {
    key[6..8] + key[9..11] + key[12..]
  }

  /** Stripping a key made of its parts leaves the three digit parts. */
  lemma StripParts(x: string, y: string, z: string)
    requires |x| == 2 && |y| == 2 && |z| == 28
    ensures var k := KeyRoot + "/" + x + "/" + y + "/" + z;
      |k| == 40 && StripKey(k) == x + y + z
  {
    var k := KeyRoot + "/" + x + "/" + y + "/" + z;
    assert k[6..8] == x;
    assert k[9..11] == y;
    assert k[12..] == z;
  }

  /** Stripping the key gives back the digits, and hyphenating those gives back the text form of the UUID. */
  lemma StripKeyRecovers(id: Uuid)
    ensures |Key(id)| == 40
    ensures StripKey(Key(id)) == Hex(id)
    ensures Hyphenate(StripKey(Key(id))) == String(id)
  {
    var h := Hex(id);
    StripParts(h[..2], h[2..4], h[4..]);
    assert h == h[..2] + h[2..4] + h[4..];
    StringGroups(id);
  }

  /** Distinct blobs are stored under distinct keys. */
  lemma KeyInjective(a: Uuid, b: Uuid)
    requires Key(a) == Key(b)
    ensures a == b
  {
    StripKeyRecovers(a);
    StripKeyRecovers(b);
    StringInjective(a, b);
  }
}
