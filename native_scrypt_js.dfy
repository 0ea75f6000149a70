/**
 * The JavaScript side of the module (`specs/NativeScrypt.ts`): normalising each
 * `BytesLike` variant to a binary string for `btoa`, the module lookup, and the
 * `0x` framing of the native hex result.
 *
 * `btoa` and the native module's `scrypt` are parameters; the module registry
 * lookup `TurboModuleRegistry.get('NativeScrypt')` is an `Option` of the latter.
 */
module NativeScryptJs {
  import opened Wrappers

  const InvalidBytesLikeMessage: string := "Invalid BytesLike input"
  const ModuleNotFoundMessage: string := "NativeScrypt module not found"

  /** An element of a `Uint8Array`. */
  type Uint8 = x: int | 0 <= x < 256

  /** A runtime value passed as `BytesLike`; `OtherValue` is any value of none of the four declared kinds. */
  datatype BytesLike =
    | StringValue(text: string)
    | Uint8ArrayValue(view: seq<Uint8>)
    | NumberArrayValue(numbers: seq<int>)
    | ArrayBufferValue(contents: seq<Uint8>)
    | OtherValue

  /** A JavaScript exception: an `Error` with its message, or a native promise rejection with its code. */
  datatype JsError = Error(message: string) | NativeError(code: string, message: string)

  /** The ending of a synchronous JavaScript computation. */
  datatype Completion<T> = Normal(value: T) | Throw(error: JsError)

  /** The state a JavaScript promise ends in; Pending when it never settles. */
  datatype Settled<T> = Fulfilled(value: T) | Rejected(reason: JsError) | Pending

  /** `progress?: ProgressCallback`: omitted or given. */
  datatype Optional<C> = Undefined | Defined(callback: C)

  /** `((progress: number) => void) | null`, the native module's parameter type. */
  datatype Nullable<C> = Null | NonNull(callback: C)

  /** The arguments of one call of the native module's `scrypt`. */
  datatype NativeRequest<C> =
    NativeRequest(passwd: string, salt: string, n: int, r: int, p: int, dkLen: int, onProgress: Nullable<C>)

  /** ECMAScript ToUint8 on an integral number: the value modulo 2^8. */
  function ToUint8(x: int): (b: Uint8)
    ensures (b - x) % 256 == 0
  {
    x % 256
  }

  /** The `Uint8Array` that `bytesToBase64` iterates over, or None when the value is of no supported kind. */
  function ByteView(bytes: BytesLike): Option<seq<Uint8>>
    requires !bytes.StringValue?
  {
    match bytes
    case Uint8ArrayValue(view) => Some(view)
    case NumberArrayValue(numbers) => Some(seq(|numbers|, i requires 0 <= i < |numbers| => ToUint8(numbers[i])))
    case ArrayBufferValue(contents) => Some(contents)
    case OtherValue => None
  }

  /** The character `String.fromCharCode(b)`. */
  function FromCharCode(b: Uint8): char
  {
    b as char
  }

  /** The string built by `binary += String.fromCharCode(byte)` over the bytes, in order. */
  function BinaryString(bytes: seq<Uint8>): string
  {
    if bytes == [] then "" else BinaryString(bytes[..|bytes| - 1]) + [FromCharCode(bytes[|bytes| - 1])]
  }

  /** The binary string has one character per byte, whose code is the byte's value. */
  lemma {:induction false} BinaryStringCodes(bytes: seq<Uint8>)
    ensures |BinaryString(bytes)| == |bytes|
    ensures forall i :: 0 <= i < |bytes| ==> BinaryString(bytes)[i] as int == bytes[i]
  {
    if bytes != [] {
      BinaryStringCodes(bytes[..|bytes| - 1]);
    }
  }

  /** Distinct byte sequences give distinct binary strings, so nothing is lost before `btoa`. */
  lemma BinaryStringInjective(a: seq<Uint8>, b: seq<Uint8>)
    requires BinaryString(a) == BinaryString(b)
    ensures a == b
  {
    BinaryStringCodes(a);
    BinaryStringCodes(b);
    assert forall i :: 0 <= i < |a| ==> a[i] == BinaryString(a)[i] as int == b[i];
  }

  /** The string `bytesToBase64` hands to `btoa`, or None when it throws "Invalid BytesLike input" instead. */
  function BtoaArgument(bytes: BytesLike): Option<string>
  {
    if bytes.StringValue? then Some(bytes.text)
    else
      match ByteView(bytes)
      case Some(view) => Some(BinaryString(view))
      case None => None
  }

  /** `bytesToBase64(bytes)` as a value. */
  function ToBase64(bytes: BytesLike, btoa: string -> Completion<string>): Completion<string>
  {
    match BtoaArgument(bytes)
    case Some(argument) => btoa(argument)
    case None => Throw(Error(InvalidBytesLikeMessage))
  }

  /**
   * A string goes to `btoa` as it is; each byte-valued kind goes as its binary string,
   * one character per byte with that byte's code; any other value is refused.
   */
  lemma BtoaArgumentShape(bytes: BytesLike)
    ensures bytes.StringValue? ==> BtoaArgument(bytes) == Some(bytes.text)
    ensures bytes.OtherValue? <==> BtoaArgument(bytes) == None
    ensures !bytes.StringValue? && !bytes.OtherValue? ==>
              var view := ByteView(bytes).value;
              var binary := BtoaArgument(bytes).value;
              && |binary| == |view|
              && (forall i :: 0 <= i < |view| ==> binary[i] as int == view[i])
              && (bytes.Uint8ArrayValue? ==> view == bytes.view)
              && (bytes.ArrayBufferValue? ==> view == bytes.contents)
              && (bytes.NumberArrayValue? ==>
                    |view| == |bytes.numbers| && forall i :: 0 <= i < |view| ==> view[i] == bytes.numbers[i] % 256)
  {
    if !bytes.StringValue? && !bytes.OtherValue? {
      BinaryStringCodes(ByteView(bytes).value);
    }
  }

  /** `bytesToBase64`: dispatch on the kind of value, build the binary string byte by byte, call `btoa`. */
  method BytesToBase64(bytes: BytesLike, btoa: string -> Completion<string>) returns (result: Completion<string>)
    ensures result == ToBase64(bytes, btoa)
  {
    if bytes.StringValue? {
      return btoa(bytes.text);
    }
    var uint8Array: seq<Uint8>;
    if bytes.Uint8ArrayValue? {
      uint8Array := bytes.view;
    } else if bytes.NumberArrayValue? {
      uint8Array := seq(|bytes.numbers|, i requires 0 <= i < |bytes.numbers| => ToUint8(bytes.numbers[i]));
    } else if bytes.ArrayBufferValue? {
      uint8Array := bytes.contents;
    } else {
      return Throw(Error(InvalidBytesLikeMessage));
    }
    var binary := "";
    var i := 0;
    while i < |uint8Array|
      invariant 0 <= i <= |uint8Array|
      invariant binary == BinaryString(uint8Array[..i])
    {
      assert uint8Array[..i + 1][..i] == uint8Array[..i];
      binary := binary + [FromCharCode(uint8Array[i])];
      i := i + 1;
    }
    assert uint8Array[..i] == uint8Array;
    result := btoa(binary);
  }

  /** `progress || null`: an omitted callback becomes `null`, a given one is passed on as it is. */
  function ProgressArgument<C>(progress: Optional<C>): (forwarded: Nullable<C>)
    ensures forwarded.Null? <==> progress.Undefined?
    ensures progress.Defined? ==> forwarded.callback == progress.callback
  {
    match progress
    case Undefined => Null
    case Defined(callback) => NonNull(callback)
  }

  /** The request `scrypt` sends to the native module, or the exception thrown while preparing it. */
  function Request<C>(passwd: BytesLike, salt: BytesLike, n: int, r: int, p: int, dkLen: int,
                      progress: Optional<C>, btoa: string -> Completion<string>): Completion<NativeRequest<C>>
  {
    match ToBase64(passwd, btoa)
    case Throw(e) => Throw(e)
    case Normal(passwdBase64) =>
      match ToBase64(salt, btoa)
      case Throw(e) => Throw(e)
      case Normal(saltBase64) => Normal(NativeRequest(passwdBase64, saltBase64, n, r, p, dkLen, ProgressArgument(progress)))
  }

  /** The exported `async` function `scrypt`: the state its returned promise ends in. */
  function Scrypt<C>(native: Option<NativeRequest<C> -> Settled<string>>, passwd: BytesLike, salt: BytesLike,
                     n: int, r: int, p: int, dkLen: int, progress: Optional<C>,
                     btoa: string -> Completion<string>): Settled<string>
  {
    if native.None? then Rejected(Error(ModuleNotFoundMessage))
    else
      match Request(passwd, salt, n, r, p, dkLen, progress, btoa)
      case Throw(e) => Rejected(e)
      case Normal(request) =>
        match native.value(request)
        case Fulfilled(hexResult) => Fulfilled("0x" + hexResult)
        case other => other
  }

  /** Without the native module `scrypt` rejects with "NativeScrypt module not found", whatever its other arguments. */
  lemma ModuleMissingRejects<C>(passwd: BytesLike, salt: BytesLike, n: int, r: int, p: int, dkLen: int,
                                progress: Optional<C>, btoa: string -> Completion<string>)
    ensures Scrypt(None, passwd, salt, n, r, p, dkLen, progress, btoa) == Rejected(Error(ModuleNotFoundMessage))
  {
  }

  /** A value of no supported kind makes `scrypt` reject with "Invalid BytesLike input" before the native call. */
  lemma UnsupportedInputRejects<C>(native: NativeRequest<C> -> Settled<string>, passwd: BytesLike, salt: BytesLike,
                                   n: int, r: int, p: int, dkLen: int, progress: Optional<C>,
                                   btoa: string -> Completion<string>)
    requires passwd.OtherValue? || (salt.OtherValue? && ToBase64(passwd, btoa).Normal?)
    ensures Scrypt(Some(native), passwd, salt, n, r, p, dkLen, progress, btoa) == Rejected(Error(InvalidBytesLikeMessage))
  {
  }

  /**
   * `scrypt` forwards the numbers unchanged, the two base64 strings and the callback as
   * `progress || null`; it fulfils exactly when the native call fulfils, with `"0x"`
   * followed by the native result, and otherwise ends as the native call or the input
   * conversion does.
   */
  lemma ScryptFraming<C>(native: NativeRequest<C> -> Settled<string>, passwd: BytesLike, salt: BytesLike,
                         n: int, r: int, p: int, dkLen: int, progress: Optional<C>,
                         btoa: string -> Completion<string>)
    ensures var result := Scrypt(Some(native), passwd, salt, n, r, p, dkLen, progress, btoa);
            var request := Request(passwd, salt, n, r, p, dkLen, progress, btoa);
            && (request.Throw? ==> result == Rejected(request.error))
            && (request.Normal? ==>
                  && request.value.passwd == ToBase64(passwd, btoa).value
                  && request.value.salt == ToBase64(salt, btoa).value
                  && request.value.n == n && request.value.r == r && request.value.p == p && request.value.dkLen == dkLen
                  && request.value.onProgress == ProgressArgument(progress)
                  && (result.Fulfilled? <==> native(request.value).Fulfilled?)
                  && (result.Fulfilled? ==>
                        && result.value == "0x" + native(request.value).value
                        && |result.value| == 2 + |native(request.value).value|
                        && result.value[2..] == native(request.value).value)
                  && (!result.Fulfilled? ==> result == native(request.value)))
  {
  }
}
