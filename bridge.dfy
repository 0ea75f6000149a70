/**
 * The two sides put together: the JavaScript `scrypt` calling the Android module
 * through the React Native bridge, where a Kotlin `resolve(value)` fulfils the
 * JavaScript promise and `reject(code, message)` rejects it with an error that
 * carries the code.
 */
module Bridge {
  import opened Wrappers
  import opened KotlinTypes
  import opened HexFormat
  import K = NativeScryptModule
  import J = NativeScryptJs

  /** The JavaScript view of the state the Kotlin promise ends in. */
  function ToJs(state: K.PromiseState): J.Settled<string>
  {
    match state
    case Pending => J.Pending
    case Resolved(value) => J.Fulfilled(value)
    case Rejected(code, message) => J.Rejected(J.NativeError(code, message))
  }

  /** The registered native module: every request runs the Kotlin `scrypt` once, on a fresh promise. */
  function Native<C>(decode: string -> Option<seq<Byte>>, generate: K.Job -> K.Generated): J.NativeRequest<C> -> J.Settled<string>
  {
    (request: J.NativeRequest<C>) =>
      ToJs(K.Invoke(request.passwd, request.salt, request.n, request.r, request.p, request.dkLen, decode, generate))
  }

  /** The `ByteArray` holding the same byte values as a `Uint8Array`. */
  function JvmBytes(bytes: seq<J.Uint8>): (jvm: seq<Byte>)
    ensures |jvm| == |bytes|
    ensures forall i :: 0 <= i < |bytes| ==> UnsignedByte(jvm[i]) == bytes[i]
  {
    seq(|bytes|, i requires 0 <= i < |bytes| => SignedByte(bytes[i]))
  }

  /**
   * A call with valid parameters whose two byte-valued inputs (`Uint8Array`, `number[]`
   * or `ArrayBuffer`) cross the base64 boundary intact fulfils with `"0x"` and the
   * lowercase hex of the key derived from the very bytes of those inputs:
   * `2 + 2 * dkLen` characters (dkLen after `toInt()`), decodable back to the key.
   */
  lemma DerivedKeyReachesCaller<C>(passwd: J.BytesLike, salt: J.BytesLike, n: int, r: int, p: int, dkLen: int,
                                   progress: J.Optional<C>, btoa: string -> J.Completion<string>,
                                   decode: string -> Option<seq<Byte>>, generate: K.Job -> K.Generated,
                                   passwdBase64: string, saltBase64: string)
    requires !passwd.StringValue? && !salt.StringValue?
    requires J.ByteView(passwd).Some? && J.ByteView(salt).Some?
    requires btoa(J.BinaryString(J.ByteView(passwd).value)) == J.Normal(passwdBase64)
    requires decode(passwdBase64) == Some(JvmBytes(J.ByteView(passwd).value))
    requires btoa(J.BinaryString(J.ByteView(salt).value)) == J.Normal(saltBase64)
    requires decode(saltBase64) == Some(JvmBytes(J.ByteView(salt).value))
    requires K.ValidCostFactor(n) && n <= IntMax && r >= 1 && p >= 1 && dkLen >= 1
    requires K.HonoursKeyLength(generate)
    requires generate(K.Job(JvmBytes(J.ByteView(passwd).value), JvmBytes(J.ByteView(salt).value),
                            ToInt(n), ToInt(r), ToInt(p), ToInt(dkLen))).Derived?
    ensures var key := generate(K.Job(JvmBytes(J.ByteView(passwd).value), JvmBytes(J.ByteView(salt).value),
                                      ToInt(n), ToInt(r), ToInt(p), ToInt(dkLen))).key;
            var result := J.Scrypt(Some(Native(decode, generate)), passwd, salt, n, r, p, dkLen, progress, btoa);
            && result == J.Fulfilled("0x" + ToHex(key))
            && |result.value| == 2 + 2 * ToInt(dkLen)
            && result.value[..2] == "0x"
            && FromHex(result.value[2..]) == Some(key)
  {
    var request := J.NativeRequest(passwdBase64, saltBase64, n, r, p, dkLen, J.ProgressArgument(progress));
    assert J.Request(passwd, salt, n, r, p, dkLen, progress, btoa) == J.Normal(request);
    K.ValidateAfterConversion(n, r, p, dkLen);
    K.StartsWithDecodedInputs(passwdBase64, saltBase64, n, r, p, dkLen, decode);
    var job := K.Job(JvmBytes(J.ByteView(passwd).value), JvmBytes(J.ByteView(salt).value),
                     ToInt(n), ToInt(r), ToInt(p), ToInt(dkLen));
    assert K.Invoke(passwdBase64, saltBase64, n, r, p, dkLen, decode, generate) == K.Resolved(ToHex(generate(job).key));
    FromHexOfToHex(generate(job).key);
    var hex := ToHex(generate(job).key);
    assert ("0x" + hex)[2..] == hex;
  }

  /**
   * Parameters the Kotlin gate refuses reach the caller as a rejection with code
   * `SCRYPT_INVALID_PARAMS` and the first failure's message, whatever the key derivation would do.
   */
  lemma InvalidParamsReachCaller<C>(passwd: J.BytesLike, salt: J.BytesLike, n: int, r: int, p: int, dkLen: int,
                                    progress: J.Optional<C>, btoa: string -> J.Completion<string>,
                                    decode: string -> Option<seq<Byte>>, generate: K.Job -> K.Generated)
    requires J.ToBase64(passwd, btoa).Normal? && J.ToBase64(salt, btoa).Normal?
    requires K.Validate(ToInt(n), ToInt(r), ToInt(p), ToInt(dkLen)).Some?
    ensures J.Scrypt(Some(Native(decode, generate)), passwd, salt, n, r, p, dkLen, progress, btoa)
         == J.Rejected(J.NativeError(K.InvalidParamsCode, K.Validate(ToInt(n), ToInt(r), ToInt(p), ToInt(dkLen)).value.Message()))
  {
    var request := J.Request(passwd, salt, n, r, p, dkLen, progress, btoa).value;
    K.InvalidParamsRejectBeforeDecoding(request.passwd, request.salt, n, r, p, dkLen, decode, generate, decode, generate);
  }
}
