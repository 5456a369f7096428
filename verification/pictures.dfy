/**
 * Picture uploads and serving: the stored file name, the object-store key
 * and the public URL built from the uploader and the upload second, the
 * base64 check that guards the JSON upload, and the way a served URL
 * segment is mapped back to its object.
 */
module Pictures {
  import opened Wrappers
  import opened Text
  import opened Tables

  // ---------------------------------------------------------------- names

  /** What a stored file name is made of: a JSON (base64) upload, or a form upload with its client-side name. */
  datatype Upload = Base64Upload(user: nat, unix: int) | FormUpload(user: nat, unix: int, original: string)

  const JpgSuffix := ".jpg"
  const ObjectPrefix := "images/"
  const UrlPrefix := "/static/images/"

  /** `"%d_%d.jpg"` for a JSON upload, `"%d_%d_%s"` for a form upload. */
  function FileName(u: Upload): (f: string)
    ensures |f| > 0
    ensures '/' in f <==> u.FormUpload? && '/' in u.original
  {
    DecimalHasNo(u.user, '/');
    DecimalIntHasNo(u.unix, '/');
    match u
    case Base64Upload(user, unix) => Decimal(user) + "_" + DecimalInt(unix) + JpgSuffix
    case FormUpload(user, unix, original) => Decimal(user) + "_" + DecimalInt(unix) + "_" + original
  }

  function ObjectName(f: string): string {
    ObjectPrefix + f
  }

  function Url(f: string): string {
    UrlPrefix + f
  }

  /** A signed decimal as `%d` prints it. */
  function ParseInt(s: string): (r: Option<int>)
    ensures r.Some? ==> |s| > 0
  {
    if |s| > 0 && s[0] == '-' then
      match ParseDecimal(s[1..])
      case Some(n) => Some(-(n as int))
      case None => None
    else
      match ParseDecimal(s)
      case Some(n) => Some(n as int)
      case None => None
  }

  lemma ParseIntOfDecimalInt(i: int)
    ensures ParseInt(DecimalInt(i)) == Some(i)
  {
    if i < 0 {
      assert DecimalInt(i)[1..] == Decimal(-i);
      ParseDecimalOfDecimal(-i);
    } else {
      ParseDecimalOfDecimal(i);
      assert DecimalInt(i)[0] != '-' by {
        DecimalHasNo(i, '-');
        assert DecimalInt(i)[0] in DecimalInt(i);
      }
    }
  }

  /** Reads a stored file name back into what it was built from. */
  function ParseFileName(f: string): (r: Option<Upload>)
  {
    match SplitFirst(f, '_')
    case None => None
    case Some((us, rest)) =>
      match ParseDecimal(us)
      case None => None
      case Some(user) => ParseStamped(user, rest)
  }

  /** Reads what follows `user_`: a second `_` marks a form upload, a `.jpg` ending a JSON one. */
  function ParseStamped(user: nat, rest: string): (r: Option<Upload>)
  {
    match SplitFirst(rest, '_')
    case Some((ts, original)) =>
      (match ParseInt(ts)
       case Some(unix) => Some(FormUpload(user, unix, original))
       case None => None)
    case None =>
      if |rest| >= |JpgSuffix| && rest[|rest| - |JpgSuffix|..] == JpgSuffix then
        match ParseInt(rest[..|rest| - |JpgSuffix|])
        case Some(unix) => Some(Base64Upload(user, unix))
        case None => None
      else None
  }

  lemma DecimalIntHasNoUnderscore(i: int)
    ensures '_' !in DecimalInt(i)
  {
    if i < 0 {
      DecimalHasNo(-i, '_');
      assert DecimalInt(i) == "-" + Decimal(-i);
    } else {
      DecimalHasNo(i, '_');
    }
  }

  lemma NameShape(u: Upload)
    ensures u.Base64Upload? ==> FileName(u) == Decimal(u.user) + ['_'] + (DecimalInt(u.unix) + JpgSuffix)
    ensures u.FormUpload? ==> FileName(u) == Decimal(u.user) + ['_'] + (DecimalInt(u.unix) + ['_'] + u.original)
  {
  }

  /** The user part of a stored name is read first, leaving the rest to `ParseStamped`. */
  lemma ParseUserPart(user: nat, rest: string)
    ensures ParseFileName(Decimal(user) + ['_'] + rest) == ParseStamped(user, rest)
  {
    DecimalHasNo(user, '_');
    ParseDecimalOfDecimal(user);
    SplitFirstJoin(Decimal(user), '_', rest);
  }

  lemma ParseBase64Name(user: nat, unix: int)
    ensures ParseFileName(FileName(Base64Upload(user, unix))) == Some(Base64Upload(user, unix))
  {
    DecimalIntHasNoUnderscore(unix);
    ParseIntOfDecimalInt(unix);
    var ts := DecimalInt(unix);
    var rest := ts + JpgSuffix;
    NameShape(Base64Upload(user, unix));
    ParseUserPart(user, rest);
    assert '_' !in rest;
    assert SplitFirst(rest, '_') == None;
    assert rest[|rest| - |JpgSuffix|..] == JpgSuffix;
    assert rest[..|rest| - |JpgSuffix|] == ts;
  }

  lemma ParseFormName(user: nat, unix: int, original: string)
    ensures ParseFileName(FileName(FormUpload(user, unix, original))) == Some(FormUpload(user, unix, original))
  {
    DecimalIntHasNoUnderscore(unix);
    ParseIntOfDecimalInt(unix);
    var ts := DecimalInt(unix);
    var rest := ts + ['_'] + original;
    NameShape(FormUpload(user, unix, original));
    ParseUserPart(user, rest);
    SplitFirstJoin(ts, '_', original);
  }

  /** Every stored file name reads back as the upload it was made for. */
  lemma ParseFileNameRoundTrip(u: Upload)
    ensures ParseFileName(FileName(u)) == Some(u)
  {
    match u
    case Base64Upload(user, unix) => ParseBase64Name(user, unix);
    case FormUpload(user, unix, original) => ParseFormName(user, unix, original);
  }

  /**
   * Different uploads never share a file name, across both upload kinds;
   * so two uploads collide exactly when they are of the same kind, by the
   * same user, in the same second (and, for form uploads, with the same
   * client-side name).
   */
  lemma FileNameInjective(u1: Upload, u2: Upload)
    ensures FileName(u1) == FileName(u2) <==> u1 == u2
  {
    if FileName(u1) == FileName(u2) {
      ParseFileNameRoundTrip(u1);
      ParseFileNameRoundTrip(u2);
    }
  }

  /**
   * The file name gin binds to `:filename` in `/static/images/:filename`:
   * one non-empty path segment after the prefix.
   */
  function RouteParam(path: string): (r: Option<string>)
    ensures r.Some? ==> path == UrlPrefix + r.value && |r.value| > 0 && '/' !in r.value
  {
    if |path| > |UrlPrefix| && path[..|UrlPrefix|] == UrlPrefix && '/' !in path[|UrlPrefix|..] then
      Some(path[|UrlPrefix|..])
    else None
  }

  /** The object `ServeImageFromMinIO` reads for a bound file name. */
  function ServedObject(filename: string): string {
    ObjectPrefix + filename
  }

  /**
   * A served URL leads back to exactly the object the upload stored:
   * for every name without '/', the route binds it and serving reads its
   * object.
   */
  lemma UrlServesObject(f: string)
    requires |f| > 0 && '/' !in f
    ensures RouteParam(Url(f)) == Some(f)
    ensures ServedObject(RouteParam(Url(f)).value) == ObjectName(f)
  {
    assert Url(f)[..|UrlPrefix|] == UrlPrefix;
    assert Url(f)[|UrlPrefix|..] == f;
  }

  /** A file name routed from a path is the path's own last segment, so the route and the URL scheme agree both ways. */
  lemma RouteParamInvertsUrl(path: string)
    ensures RouteParam(path).Some? ==> Url(RouteParam(path).value) == path
  {
  }

  // ---------------------------------------------------------------- base64

  type Byte = b: nat | b < 256

  predicate InAlphabet(c: char) {
    ('A' <= c <= 'Z') || ('a' <= c <= 'z') || ('0' <= c <= '9') || c == '+' || c == '/'
  }

  /** The input with every '\r' and '\n' removed; the standard decoder skips them. */
  function StripNewlines(s: string): (r: string)
    ensures |r| <= |s|
    ensures forall i :: 0 <= i < |r| ==> r[i] != '\r' && r[i] != '\n'
    ensures (forall i :: 0 <= i < |s| ==> s[i] != '\r' && s[i] != '\n') ==> r == s
    ensures forall c :: c in s && c != '\r' && c != '\n' ==> c in r
  {
    if |s| == 0 then ""
    else
      var rest := StripNewlines(s[1..]);
      if s[0] == '\r' || s[0] == '\n' then rest else [s[0]] + rest
  }

  /** Trailing '=' padding characters (at most two) of a stripped input. */
  function PadLength(t: string): (n: nat)
    ensures n <= 2 && n <= |t|
    ensures forall i :: |t| - n <= i < |t| ==> t[i] == '='
  {
    if |t| >= 2 && t[|t| - 1] == '=' && t[|t| - 2] == '=' then 2
    else if |t| >= 1 && t[|t| - 1] == '=' then 1
    else 0
  }

  /**
   * `base64.StdEncoding.DecodeString` succeeds: after the skipped line
   * breaks, whole four-character groups of the standard alphabet, with at
   * most two '=' only at the very end.
   */
  predicate ValidBase64(s: string) {
    var t := StripNewlines(s);
    |t| % 4 == 0 && forall i :: 0 <= i < |t| - PadLength(t) ==> InAlphabet(t[i])
  }

  /** Character of one six-bit group. */
  function Symbol(v: nat): (c: char)
    requires v < 64
    ensures InAlphabet(c)
  {
    if v < 26 then ('A' as int + v) as char
    else if v < 52 then ('a' as int + (v - 26)) as char
    else if v < 62 then ('0' as int + (v - 52)) as char
    else if v == 62 then '+'
    else '/'
  }

  function PadFor(n: nat): nat {
    if n % 3 == 1 then 2 else if n % 3 == 2 then 1 else 0
  }

  /** The four characters for bytes `a`, `b`, `c`; `n` of them (1 to 3) are real, the rest is padding. */
  function Group(a: Byte, b: Byte, c: Byte, n: nat): (g: string)
    requires 1 <= n <= 3
    ensures |g| == 4
    ensures forall i :: 0 <= i < n + 1 ==> InAlphabet(g[i])
    ensures forall i :: n + 1 <= i < 4 ==> g[i] == '='
  {
    var s0 := a / 4;
    var s1 := (a % 4) * 16 + b / 16;
    var s2 := (b % 16) * 4 + c / 64;
    var s3 := c % 64;
    if n == 1 then [Symbol(s0), Symbol((a % 4) * 16), '=', '=']
    else if n == 2 then [Symbol(s0), Symbol(s1), Symbol((b % 16) * 4), '=']
    else [Symbol(s0), Symbol(s1), Symbol(s2), Symbol(s3)]
  }

  /** Standard padded base64 of `d`, as a client would send it. */
  function Encode(d: seq<Byte>): (s: string)
    ensures |s| == 4 * ((|d| + 2) / 3)
    ensures forall i :: 0 <= i < |s| - PadFor(|d|) ==> InAlphabet(s[i])
    ensures forall i :: |s| - PadFor(|d|) <= i < |s| ==> s[i] == '='
    decreases |d|
  {
    if |d| == 0 then ""
    else if |d| == 1 then Group(d[0], 0, 0, 1)
    else if |d| == 2 then Group(d[0], d[1], 0, 2)
    else
      var head := Group(d[0], d[1], d[2], 3);
      var tail := Encode(d[3..]);
      assert PadFor(|d|) == PadFor(|d| - 3);
      GroupsAdd(|d|);
      PrependGroup(head, tail, PadFor(|d|));
      head + tail
  }

  lemma GroupsAdd(n: nat)
    requires n >= 3
    ensures 4 * ((n + 2) / 3) == 4 + 4 * ((n - 3 + 2) / 3)
  {
    var q := (n - 3 + 2) / 3;
    assert (n + 2) / 3 == q + 1;
  }

  /** Putting one full group of alphabet characters in front keeps the padding at the end. */
  lemma PrependGroup(head: string, tail: string, p: nat)
    requires |head| == 4 && forall i :: 0 <= i < 4 ==> InAlphabet(head[i])
    requires p <= |tail|
    requires forall i :: 0 <= i < |tail| - p ==> InAlphabet(tail[i])
    requires forall i :: |tail| - p <= i < |tail| ==> tail[i] == '='
    ensures forall i :: 0 <= i < |head + tail| - p ==> InAlphabet((head + tail)[i])
    ensures forall i :: |head + tail| - p <= i < |head + tail| ==> (head + tail)[i] == '='
  {
    assert forall i :: 4 <= i < |head + tail| ==> (head + tail)[i] == tail[i - 4];
  }

  /** Alphabet characters followed by at most two '=' in whole groups of four is valid input. */
  lemma PaddedIsValid(e: string, p: nat)
    requires p <= 2 && p <= |e| && |e| % 4 == 0
    requires forall i :: 0 <= i < |e| - p ==> InAlphabet(e[i])
    requires forall i :: |e| - p <= i < |e| ==> e[i] == '='
    ensures ValidBase64(e)
  {
    forall i | 0 <= i < |e| ensures e[i] != '\r' && e[i] != '\n' {
      if i < |e| - p {
        assert InAlphabet(e[i]);
      }
    }
    assert StripNewlines(e) == e;
    if p == 1 {
      assert InAlphabet(e[|e| - 2]);
    } else if p == 0 && |e| > 0 {
      assert InAlphabet(e[|e| - 1]);
    }
    assert PadLength(e) == p;
  }

  /** Whatever a client encodes with the standard alphabet passes the handler's base64 check. */
  lemma EncodedIsValid(d: seq<Byte>)
    ensures ValidBase64(Encode(d))
  {
    var e := Encode(d);
    var groups := (|d| + 2) / 3;
    assert |e| == 4 * groups;
    assert |d| > 0 ==> groups >= 1;
    PaddedIsValid(e, PadFor(|d|));
  }

  /** Any character outside the alphabet, other than padding and line breaks, makes the input refused. */
  lemma ForeignCharacterRefused(s: string, i: nat)
    requires i < |s| && !InAlphabet(s[i]) && s[i] !in "=\r\n"
    ensures !ValidBase64(s)
  {
    var t := StripNewlines(s);
    var c := s[i];
    assert c in s;
    var j :| 0 <= j < |t| && t[j] == c;
    if j < |t| - PadLength(t) {
      assert !InAlphabet(t[j]);
    }
  }

  /** A data URL, as the request's documented example shows it, is not bare base64 and is refused. */
  lemma DataUrlIsRefused(payload: string)
    ensures !ValidBase64("data:image/jpeg;base64," + payload)
  {
    var s := "data:image/jpeg;base64," + payload;
    assert s[4] == ':';
    ForeignCharacterRefused(s, 4);
  }

  // ---------------------------------------------------------------- handlers

  datatype Outcome =
    | BadRequest | InvalidImage | FileMissing | OpenFailed | PutFailed | RowFailed | Uploaded(id: nat, url: string)

  /** `pictures.url` is a 500-character column; a longer URL makes the row insert fail. */
  const MaxUrlLength := 500

  /**
   * The steps both upload handlers share once the bytes are in hand: put
   * the object, then insert the row. A failed insert leaves the stored
   * object behind.
   */
  function Store(objects: set<string>, db: Db, user: nat, f: string, putFails: bool, createFails: bool)
    : (r: (set<string>, Db, Outcome))
    ensures r.2 == PutFailed <==> putFails
    ensures r.2 == PutFailed ==> r.0 == objects && r.1 == db
    ensures !putFails ==> r.0 == objects + {ObjectName(f)}
    ensures r.2 == RowFailed <==> !putFails && (createFails || |Url(f)| > MaxUrlLength)
    ensures r.2 == RowFailed ==> r.1 == db
    ensures r.2.Uploaded? ==>
              && r.2 == Uploaded(db.nextPicture, Url(f))
              && r.1 == db.(pictures := db.pictures[db.nextPicture := Picture(Url(f), user)],
                            nextPicture := db.nextPicture + 1)
    ensures r.2 in {PutFailed, RowFailed} || r.2.Uploaded?
    ensures PictureIdsBelow(db) ==> PictureIdsBelow(r.1)
    ensures PictureIdsBelow(db) && r.2.Uploaded? ==> r.2.id !in db.pictures
  {
    if putFails then (objects, db, PutFailed)
    else
      var objects' := objects + {ObjectName(f)};
      if createFails || |Url(f)| > MaxUrlLength then (objects', db, RowFailed)
      else
        var id := db.nextPicture;
        (objects', db.(pictures := db.pictures[id := Picture(Url(f), user)], nextPicture := id + 1), Uploaded(id, Url(f)))
  }

  /**
   * `POST /api/picture/upload` with `{"image_data": ...}` at second `now`. A missing
   * or empty field and data that is not base64 are refused before anything
   * is written.
   */
  function UploadPicture(objects: set<string>, db: Db, user: nat, now: int, imageData: Option<string>,
                         putFails: bool, createFails: bool): (r: (set<string>, Db, Outcome))
    ensures r.2 == BadRequest <==> imageData.None? || imageData.value == ""
    ensures r.2 == InvalidImage <==> imageData.Some? && imageData.value != "" && !ValidBase64(imageData.value)
    ensures r.2 in {BadRequest, InvalidImage, PutFailed} ==> r.0 == objects && r.1 == db
    ensures r.2 !in {BadRequest, InvalidImage} ==> r == Store(objects, db, user, FileName(Base64Upload(user, now)), putFails, createFails)
  {
    if imageData.None? || imageData.value == "" then (objects, db, BadRequest)
    else if !ValidBase64(imageData.value) then (objects, db, InvalidImage)
    else Store(objects, db, user, FileName(Base64Upload(user, now)), putFails, createFails)
  }

  /**
   * `POST /api/picture/upload/multipart` with a form file part named `image` whose
   * client-side name is `file.value`; `None` when the form has no such file.
   */
  function UploadPictureMultipart(objects: set<string>, db: Db, user: nat, now: int, file: Option<string>,
                                  openFails: bool, putFails: bool, createFails: bool): (r: (set<string>, Db, Outcome))
    ensures r.2 == FileMissing <==> file.None?
    ensures r.2 == OpenFailed <==> file.Some? && openFails
    ensures r.2 in {FileMissing, OpenFailed, PutFailed} ==> r.0 == objects && r.1 == db
    ensures r.2 !in {FileMissing, OpenFailed} ==>
              r == Store(objects, db, user, FileName(FormUpload(user, now, file.value)), putFails, createFails)
  {
    if file.None? then (objects, db, FileMissing)
    else if openFails then (objects, db, OpenFailed)
    else Store(objects, db, user, FileName(FormUpload(user, now, file.value)), putFails, createFails)
  }

  datatype Served = NotFound | Object(name: string)

  /** `GET /static/images/:filename`: the object named from the bound file name, or 404 when there is none. */
  function ServeImage(objects: set<string>, filename: string): (r: Served)
    ensures r.Object? <==> ServedObject(filename) in objects
    ensures r.Object? ==> r.name == ServedObject(filename)
  {
    if ServedObject(filename) in objects then Object(ServedObject(filename)) else NotFound
  }

  /**
   * After a successful upload the returned URL routes to a file name whose
   * object is found; for a form upload this needs a client-side name
   * without '/', which the multipart reader guarantees.
   */
  lemma UploadThenServe(objects: set<string>, db: Db, user: nat, now: int, u: Upload,
                        putFails: bool, createFails: bool)
    requires u.user == user && u.unix == now
    requires u.FormUpload? ==> '/' !in u.original
    ensures var f := FileName(u);
            var r := Store(objects, db, user, f, putFails, createFails);
            r.2.Uploaded? ==>
              && RouteParam(r.2.url) == Some(f)
              && ServeImage(r.0, RouteParam(r.2.url).value) == Object(ObjectName(f))
  {
    UrlServesObject(FileName(u));
  }

  /**
   * Two JSON uploads by one user in one second write the same object: the
   * second overwrites the first, and both rows point at one URL.
   */
  lemma SameSecondUploadsShareObject(objects: set<string>, db: Db, user: nat, now: int, d1: string, d2: string)
    requires ValidBase64(d1) && ValidBase64(d2) && d1 != "" && d2 != ""
    ensures var r1 := UploadPicture(objects, db, user, now, Some(d1), false, false);
            var r2 := UploadPicture(r1.0, r1.1, user, now, Some(d2), false, false);
            r1.2.Uploaded? && r2.2.Uploaded? ==>
              && r1.2.url == r2.2.url && r1.2.id != r2.2.id
              && r2.0 == objects + {ObjectName(FileName(Base64Upload(user, now)))}
  {
  }
}
