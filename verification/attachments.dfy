/** The attachment service and the route that serves it: the path guard, the
    composite key cut to its AES key, the caller's initialisation vector, and the
    padded CBC decryption. Reading the file, base64 decoding and the AES-256 block
    decryption are parameters. */
module Attachments {
  import opened Wrappers
  import opened Items
  import opened Bytes
  import opened PosixPath
  import opened AttachmentPath
  import opened Cbc

  const INVALID_PATH: string := "Invalid path"
  const INVALID_IV: string := "Invalid initialization vector"
  const INVALID_KEY_LENGTH: string := "Invalid key length"
  const KEY_SIZE: nat := 32
  const IV_SIZE: nat := 16

  /** What the service cannot compute itself. */
  datatype Io = Io(
    readFile: string -> Result<seq<Byte>, Thrown>,
    base64: string -> seq<Byte>,
    aesDecrypt: (seq<Byte>, Block) -> Block)

  /** `Buffer.slice(0, 32)`: at most the first thirty-two bytes. */
  function AesKey(composite: seq<Byte>): (key: seq<Byte>)
    ensures |key| == if |composite| < KEY_SIZE then |composite| else KEY_SIZE
    ensures key == composite[..|key|]
  {
    if |composite| < KEY_SIZE then composite else composite[..KEY_SIZE]
  }

  /** Everything after the guard: read, decode the parameters, check the IV and then
      the key length as `createDecipheriv` does, and decipher. */
  function ReadAndDecrypt(full: string, localKey: string, iv: string, io: Io): Result<seq<Byte>, Thrown> {
    match io.readFile(full)
    case Failure(e) => Failure(e)
    case Success(data) =>
      var key := AesKey(io.base64(localKey));
      var ivBytes := io.base64(iv);
      if |ivBytes| != IV_SIZE then Failure(Thrown(INVALID_IV))
      else if |key| != KEY_SIZE then Failure(Thrown(INVALID_KEY_LENGTH))
      else Decipher(b => io.aesDecrypt(key, b), ivBytes, data)
  }

  /** `getAttachment`, with the containment guard as intended. */
  function GetAttachment(base: string, filePath: string, localKey: string, iv: string, io: Io): Result<seq<Byte>, Thrown> {
    var full := FullPath(base, filePath);
    if !Inside(full, base) then Failure(Thrown(INVALID_PATH))
    else ReadAndDecrypt(full, localKey, iv, io)
  }

  /** `getAttachment` as written, with the string-prefix guard. */
  function GetAttachmentAsWritten(base: string, filePath: string, localKey: string, iv: string, io: Io): Result<seq<Byte>, Thrown> {
    var full := FullPath(base, filePath);
    if !GuardAsWritten(full, base) then Failure(Thrown(INVALID_PATH))
    else ReadAndDecrypt(full, localKey, iv, io)
  }

  /** The guard runs before any read: a refused path throws `Invalid path`, whatever
      the file system holds, under the written guard and the intended one alike. */
  lemma GuardBeforeRead(base: string, filePath: string, localKey: string, iv: string, io: Io)
    ensures !GuardAsWritten(FullPath(base, filePath), base) ==>
      GetAttachmentAsWritten(base, filePath, localKey, iv, io) == Failure(Thrown(INVALID_PATH))
    ensures !Inside(FullPath(base, filePath), base) ==>
      GetAttachment(base, filePath, localKey, iv, io) == Failure(Thrown(INVALID_PATH))
  {
  }

  /** Composite keys that agree on their first thirty-two bytes decrypt alike: the
      bytes after them never influence the outcome, under either guard. */
  lemma OnlyAesKeyMatters(base: string, filePath: string, k1: string, k2: string, iv: string, io: Io)
    requires |io.base64(k1)| >= KEY_SIZE && |io.base64(k2)| >= KEY_SIZE
    requires io.base64(k1)[..KEY_SIZE] == io.base64(k2)[..KEY_SIZE]
    ensures GetAttachmentAsWritten(base, filePath, k1, iv, io) == GetAttachmentAsWritten(base, filePath, k2, iv, io)
    ensures GetAttachment(base, filePath, k1, iv, io) == GetAttachment(base, filePath, k2, iv, io)
  {
    assert AesKey(io.base64(k1)) == AesKey(io.base64(k2));
    var full := FullPath(base, filePath);
    assert ReadAndDecrypt(full, k1, iv, io) == ReadAndDecrypt(full, k2, iv, io);
  }

  /** A wrong-length IV, or a composite key shorter than thirty-two bytes, throws
      without any block being decrypted: the block cipher plays no part. */
  lemma BadParametersNeverDecrypt(full: string, localKey: string, iv: string, io: Io,
                                  other: (seq<Byte>, Block) -> Block)
    requires io.readFile(full).Success?
    requires |io.base64(iv)| != IV_SIZE || |io.base64(localKey)| < KEY_SIZE
    ensures ReadAndDecrypt(full, localKey, iv, io).Failure?
    ensures ReadAndDecrypt(full, localKey, iv, io) == ReadAndDecrypt(full, localKey, iv, io.(aesDecrypt := other))
    ensures |io.base64(iv)| != IV_SIZE ==> ReadAndDecrypt(full, localKey, iv, io) == Failure(Thrown(INVALID_IV))
  {
  }

  /** A served attachment is the CBC decryption of the whole file under the first
      thirty-two key bytes and the caller's IV, less its 1 to 16 bytes of padding. */
  lemma DecryptedShape(full: string, localKey: string, iv: string, io: Io)
    requires ReadAndDecrypt(full, localKey, iv, io).Success?
    ensures io.readFile(full).Success? && |io.base64(iv)| == IV_SIZE && |io.base64(localKey)| >= KEY_SIZE
    ensures var data := io.readFile(full).value;
      var key := io.base64(localKey)[..KEY_SIZE];
      var r := ReadAndDecrypt(full, localKey, iv, io).value;
      |data| % 16 == 0 && |data| - 16 <= |r| < |data|
      && PaddedBy(Decrypt(b => io.aesDecrypt(key, b), io.base64(iv), data), r)
  {
    var data := io.readFile(full).value;
    var key := AesKey(io.base64(localKey));
    DecipherShape(b => io.aesDecrypt(key, b), io.base64(iv), data);
  }

  /** A file holding the CBC encryption of a padded message, under the first
      thirty-two key bytes and the caller's IV, is served as that message. */
  lemma ServesEncryptedMessage(full: string, localKey: string, iv: string, io: Io,
                               aesEncrypt: (seq<Byte>, Block) -> Block, m: seq<Byte>)
    requires |io.base64(iv)| == IV_SIZE && |io.base64(localKey)| >= KEY_SIZE
    requires forall k: seq<Byte>, b: Block :: io.aesDecrypt(k, aesEncrypt(k, b)) == b
    requires io.readFile(full) == Success(Encrypt(b => aesEncrypt(io.base64(localKey)[..KEY_SIZE], b), io.base64(iv), Pad(m)))
    ensures ReadAndDecrypt(full, localKey, iv, io) == Success(m)
  {
    var key := AesKey(io.base64(localKey));
    var enc := (b: Block) => aesEncrypt(key, b);
    var dec := (b: Block) => io.aesDecrypt(key, b);
    assert forall b: Block :: dec(enc(b)) == b;
    DecipherEncrypted(enc, dec, io.base64(iv), m);
  }

  /** The written and the intended service answer alike except on paths into a
      sibling of the attachments directory, which only the written one reads. */
  lemma GuardsDifferOnSiblingsOnly(storage: string, filePath: string, localKey: string, iv: string, io: Io)
    requires storage != ""
    ensures var base := AttachmentsPath(Some(storage)).value;
      !Sibling(BaseSegs(storage), FullSegs(storage, filePath)) ==>
        GetAttachmentAsWritten(base, filePath, localKey, iv, io) == GetAttachment(base, filePath, localKey, iv, io)
    ensures var base := AttachmentsPath(Some(storage)).value;
      Sibling(BaseSegs(storage), FullSegs(storage, filePath)) ==>
        GetAttachment(base, filePath, localKey, iv, io) == Failure(Thrown(INVALID_PATH))
        && GetAttachmentAsWritten(base, filePath, localKey, iv, io) == ReadAndDecrypt(FullPath(base, filePath), localKey, iv, io)
  {
    WrittenGuardAdmitsSiblings(storage, filePath);
    InsideMeansBelowBase(storage, filePath);
    BaseShape(storage);
    var b := BaseSegs(storage);
    var f := FullSegs(storage, filePath);
    if Sibling(b, f) {
      assert f[..|b|] != b by {
        assert f[..|b|][|b| - 1] == f[|b| - 1];
      }
    }
  }

  /** A query value of the route: absent, one string, or repeated. */
  datatype QueryValue = Absent | One(value: string) | Many(values: seq<string>)

  /** JavaScript truthiness of a query value: an array is truthy even when empty. */
  predicate QueryTruthy(v: QueryValue) {
    match v
    case Absent => false
    case One(s) => s != ""
    case Many(_) => true
  }

  datatype AttachmentRequest = AttachmentRequest(
    httpMethod: string,
    path: QueryValue,
    contentType: QueryValue,
    localKey: QueryValue,
    iv: QueryValue)

  datatype AttachmentResponse =
    | Refused(status: int, error: string)
    | Served(contentType: QueryValue, data: seq<Byte>)

  /** What the route asks of the attachment service: the file path, the key and the IV. */
  type Service = (string, string, string) -> Result<seq<Byte>, Thrown>

  /** A character Node.js admits in a header value: tab, the printable ASCII range
      and the Latin-1 range from 0x80 to 0xFF. */
  predicate HeaderChar(c: char) {
    var n := c as int;
    n == 0x09 || 0x20 <= n <= 0x7E || 0x80 <= n <= 0xFF
  }

  /** `res.setHeader('Content-Type', contentType)` does not throw: every character
      of the value is admitted. An array value is checked as its comma-joined text. */
  predicate HeaderSettable(v: QueryValue) {
    match v
    case Absent => false
    case One(s) => forall i :: 0 <= i < |s| ==> HeaderChar(s[i])
    case Many(vs) => forall j, i :: 0 <= j < |vs| && 0 <= i < |vs[j]| ==> HeaderChar(vs[j][i])
  }

  /** The attachment route: method, then the required parameters in order, then
      the service with the path segments joined by `/`, then the content-type
      header; anything thrown is a 500. */
  function Route(req: AttachmentRequest, service: Service): (resp: AttachmentResponse)
    ensures req.httpMethod != "GET" <==> resp == Refused(405, "Method not allowed")
    ensures resp.Served? ==> req.localKey.One? && req.iv.One? && req.path.Many? && QueryTruthy(req.contentType)
    ensures resp.Served? ==>
      resp.contentType == req.contentType && HeaderSettable(req.contentType)
      && service(JoinSegs(req.path.values), req.localKey.value, req.iv.value) == Success(resp.data)
    ensures resp.Refused? ==> resp.status in {400, 405, 500}
  {
    if req.httpMethod != "GET" then Refused(405, "Method not allowed")
    else if !QueryTruthy(req.contentType) then Refused(400, "contentType is required")
    else if !(QueryTruthy(req.localKey) && req.localKey.One?) then Refused(400, "localKey is required")
    else if !(QueryTruthy(req.iv) && req.iv.One?) then Refused(400, "iv is required")
    else if !req.path.Many? then Refused(400, "Invalid path")
    else match service(JoinSegs(req.path.values), req.localKey.value, req.iv.value)
      case Failure(_) => Refused(500, "Failed to serve attachment")
      case Success(data) =>
        if HeaderSettable(req.contentType) then Served(req.contentType, data)
        else Refused(500, "Failed to serve attachment")
  }

  /** The route as deployed, over `getAttachment` with its written guard. */
  function ServeAttachment(base: string, req: AttachmentRequest, io: Io): (resp: AttachmentResponse)
    ensures req.httpMethod != "GET" <==> resp == Refused(405, "Method not allowed")
    ensures resp.Served? ==> req.localKey.One? && req.iv.One? && req.path.Many? && QueryTruthy(req.contentType)
    ensures resp.Served? ==>
      GetAttachmentAsWritten(base, JoinSegs(req.path.values), req.localKey.value, req.iv.value, io) == Success(resp.data)
  {
    Route(req, (f, k, v) => GetAttachmentAsWritten(base, f, k, v, io))
  }

  /** The route over `getAttachment` with the containment guard as intended. */
  function ServeAttachmentIntended(base: string, req: AttachmentRequest, io: Io): (resp: AttachmentResponse)
    ensures req.httpMethod != "GET" <==> resp == Refused(405, "Method not allowed")
    ensures resp.Served? ==> req.localKey.One? && req.iv.One? && req.path.Many? && QueryTruthy(req.contentType)
    ensures resp.Served? ==>
      GetAttachment(base, JoinSegs(req.path.values), req.localKey.value, req.iv.value, io) == Success(resp.data)
  {
    Route(req, (f, k, v) => GetAttachment(base, f, k, v, io))
  }

  /** The deployed and the intended route answer alike except when the joined path
      reaches into a sibling of the attachments directory: the deployed route then
      decrypts that file, and the intended one answers 500. */
  lemma RoutesDifferOnSiblingsOnly(storage: string, req: AttachmentRequest, io: Io)
    requires storage != ""
    ensures var base := AttachmentsPath(Some(storage)).value;
      var sibling := req.path.Many? && Sibling(BaseSegs(storage), FullSegs(storage, JoinSegs(req.path.values)));
      (!sibling ==> ServeAttachment(base, req, io) == ServeAttachmentIntended(base, req, io))
      && (sibling && req.httpMethod == "GET" && QueryTruthy(req.contentType) && req.localKey.One? && req.localKey.value != ""
          && req.iv.One? && req.iv.value != "" ==>
        ServeAttachmentIntended(base, req, io) == Refused(500, "Failed to serve attachment")
        && (ServeAttachment(base, req, io).Served? <==>
            ReadAndDecrypt(FullPath(base, JoinSegs(req.path.values)), req.localKey.value, req.iv.value, io).Success?
            && HeaderSettable(req.contentType)))
  {
    var base := AttachmentsPath(Some(storage)).value;
    var deployed: Service := (f, k, v) => GetAttachmentAsWritten(base, f, k, v, io);
    var intended: Service := (f, k, v) => GetAttachment(base, f, k, v, io);
    assert ServeAttachment(base, req, io) == Route(req, deployed);
    assert ServeAttachmentIntended(base, req, io) == Route(req, intended);
    if req.path.Many? && req.localKey.One? && req.iv.One? {
      GuardsDifferOnSiblingsOnly(storage, JoinSegs(req.path.values), req.localKey.value, req.iv.value, io);
    }
    if !(req.path.Many? && Sibling(BaseSegs(storage), FullSegs(storage, JoinSegs(req.path.values)))) {
      RouteAgrees(req, deployed, intended);
    } else if req.httpMethod == "GET" && QueryTruthy(req.contentType) && req.localKey.One? && req.localKey.value != ""
              && req.iv.One? && req.iv.value != "" {
      RouteReachesService(req, deployed);
      RouteReachesService(req, intended);
    }
  }

  /** Two services that answer the request's path, key and IV alike make the route
      answer alike. */
  lemma RouteAgrees(req: AttachmentRequest, s1: Service, s2: Service)
    requires req.path.Many? && req.localKey.One? && req.iv.One? ==>
      s1(JoinSegs(req.path.values), req.localKey.value, req.iv.value)
      == s2(JoinSegs(req.path.values), req.localKey.value, req.iv.value)
    ensures Route(req, s1) == Route(req, s2)
  {
  }

  /** A `GET` with a content type, a key, an IV and path segments reaches the
      service: it is served the service's answer when the content type can be set
      as a header, and a throw of the service or of `setHeader` is a 500. */
  lemma RouteReachesService(req: AttachmentRequest, service: Service)
    requires req.httpMethod == "GET" && req.path.Many?
    requires QueryTruthy(req.contentType) && req.localKey.One? && req.localKey.value != ""
    requires req.iv.One? && req.iv.value != ""
    ensures var got := service(JoinSegs(req.path.values), req.localKey.value, req.iv.value);
      (got.Success? && HeaderSettable(req.contentType) ==> Route(req, service) == Served(req.contentType, got.value))
      && (got.Failure? || !HeaderSettable(req.contentType) ==> Route(req, service) == Refused(500, "Failed to serve attachment"))
  {
  }

  /** A request without an `iv` is refused with a 400 before the service is asked. */
  lemma NoIvIsRefused(base: string, req: AttachmentRequest, io: Io)
    requires req.httpMethod == "GET" && QueryTruthy(req.contentType) && req.localKey.One? && req.localKey.value != ""
    requires req.iv == Absent
    ensures ServeAttachment(base, req, io) == Refused(400, "iv is required")
  {
  }
}
