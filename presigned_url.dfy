/** pages/api/generate-presigned-url.ts: issues a pre-signed PUT URL for one object.
    The request is validated, a PutObject command is built and handed to the signer
    (`getSignedUrl`), which the model takes as a parameter that may fail. */
module PresignedUrlApi {
  import opened Wrappers
  import opened Http

  const NotAllowedMessage := "Método no permitido"
  const MissingFieldsMessage := "Faltan parámetros"
  const SignerErrorMessage := "Error generando presigned URL"

  /** `expiresIn: 60 * 5`: the URL is valid for five minutes. */
  const ExpiresInSeconds: nat := 60 * 5

  /** `new PutObjectCommand({ Bucket, Key, ContentType })`. */
  datatype PutObject = PutObject(bucket: string, key: string, contentType: string)

  /** What is handed to `getSignedUrl`: the command and the expiry in seconds. */
  datatype SignRequest = SignRequest(command: PutObject, expiresIn: nat)

  /** `getSignedUrl`: a URL, or `None` when it throws. */
  type Signer = SignRequest -> Option<string>

  /** The request is a POST carrying a non-empty `fileName` and `fileType`. */
  predicate Accepted(verb: string, fileName: Option<string>, fileType: Option<string>)
  {
    verb == "POST" && Truthy(fileName) && Truthy(fileType)
  }

  /** The signing request for an accepted upload: the configured bucket, the file name
      as the key and the file type as the content type, both unchanged, for 300 s. */
  function SignRequestFor(bucket: string, fileName: string, fileType: string): (req: SignRequest)
    ensures req.command.bucket == bucket
    ensures req.command.key == fileName && req.command.contentType == fileType
    ensures req.expiresIn == 300
  {
    SignRequest(PutObject(bucket, fileName, fileType), ExpiresInSeconds)
  }

  /** The handler. `bucket` is `AWS_S3_BUCKET_NAME`. */
  function GeneratePresignedUrl(verb: string, fileName: Option<string>, fileType: Option<string>,
                                bucket: string, sign: Signer): (reply: Response<string>)
    ensures verb != "POST" ==> reply == Failure(StatusMethodNotAllowed, NotAllowedMessage)
    ensures verb == "POST" && !(Truthy(fileName) && Truthy(fileType)) ==>
      reply == Failure(StatusBadRequest, MissingFieldsMessage)
    ensures reply.Success? <==>
      Accepted(verb, fileName, fileType) &&
      sign(SignRequestFor(bucket, fileName.value, fileType.value)).Some?
    ensures reply.Success? ==>
      reply.value == sign(SignRequestFor(bucket, fileName.value, fileType.value)).value
    ensures Accepted(verb, fileName, fileType) && reply.Failure? ==>
      reply == Failure(StatusInternalError, SignerErrorMessage)
  {
    if verb != "POST" then Failure(StatusMethodNotAllowed, NotAllowedMessage)
    else if !Truthy(fileName) || !Truthy(fileType) then Failure(StatusBadRequest, MissingFieldsMessage)
    else
      match sign(SignRequestFor(bucket, fileName.value, fileType.value))
      case Some(url) => Success(url)
      case None => Failure(StatusInternalError, SignerErrorMessage)
  }

  /** A rejected request never reaches the signer: its reply is the same whatever the
      signer would have done. */
  lemma RejectedRequestIgnoresSigner(verb: string, fileName: Option<string>, fileType: Option<string>,
                                     bucket: string, sign1: Signer, sign2: Signer)
    requires !Accepted(verb, fileName, fileType)
    ensures GeneratePresignedUrl(verb, fileName, fileType, bucket, sign1)
            == GeneratePresignedUrl(verb, fileName, fileType, bucket, sign2)
    ensures GeneratePresignedUrl(verb, fileName, fileType, bucket, sign1).Failure?
  {
  }

  /** An accepted request consults the signer on exactly one request, the one for its
      own file: signers that agree there give the same reply. */
  lemma AcceptedRequestSignsOwnFile(verb: string, fileName: Option<string>, fileType: Option<string>,
                                    bucket: string, sign1: Signer, sign2: Signer)
    requires Accepted(verb, fileName, fileType)
    requires sign1(SignRequestFor(bucket, fileName.value, fileType.value))
             == sign2(SignRequestFor(bucket, fileName.value, fileType.value))
    ensures GeneratePresignedUrl(verb, fileName, fileType, bucket, sign1)
            == GeneratePresignedUrl(verb, fileName, fileType, bucket, sign2)
  {
  }
}
