/** Keys and ciphertexts as symbolic terms: a box opens under its own key and
    under no other. Keys are named by the number of the client that made them. */
module Terms {
  import opened Wrappers

  datatype AesKey = AesKey(maker: nat)

  datatype PublicKey = PublicKey(maker: nat)

  datatype PrivateKey = PrivateKey(maker: nat)

  datatype Content =
    | NoContent
    | RsaBox(publicKey: PublicKey, key: AesKey)
    | AesBox(key: AesKey, plain: string)

  /** The four message types a client sends. */
  datatype Kind = GetSymmetricKey | SendSymmetricKey | SendText | SendFile

  function OpenRsa(privateKey: PrivateKey, content: Content): Option<AesKey>
  {
    match content
    case RsaBox(PublicKey(maker), key) => if maker == privateKey.maker then Some(key) else None
    case _ => None
  }

  function OpenAes(key: AesKey, content: Content): Option<string>
  {
    match content
    case AesBox(under, plain) => if under == key then Some(plain) else None
    case _ => None
  }
}
