/** `neko::util::hash`: the algorithm names and the hexadecimal rendering of a
    message digest. The digest computation itself belongs to OpenSSL's EVP
    interface and is a parameter here: `evp(md, data)` is the output buffer
    `EVP_DigestFinal_ex` fills for message `data`. */
module Hash {
  import Wrappers
  import opened Bytes

  /** `Algorithm`, in declaration order. */
  datatype Algorithm = None | MD5 | SHA1 | SHA256 | SHA512

  /** `hashAlgorithmMap`: every algorithm but `none` has a name. */
  const HashAlgorithmMap: map<Algorithm, string> :=
    map[MD5 := "md5", SHA1 := "sha1", SHA256 := "sha256", SHA512 := "sha512"]

  /** The keys of the map, in the order the search below visits them. The
      order is immaterial: no two algorithms share a name. */
  const Named: seq<Algorithm> := [MD5, SHA1, SHA256, SHA512]

  lemma NamedAreTheKeys()
    ensures forall a :: a in HashAlgorithmMap <==> a in Named
    ensures forall a :: a in HashAlgorithmMap <==> a != None
    ensures forall i, j :: 0 <= i < j < |Named| ==> HashAlgorithmMap[Named[i]] != HashAlgorithmMap[Named[j]]
  {
    forall a | a != None
      ensures a in HashAlgorithmMap
    {
      match a
      case MD5 =>
      case SHA1 =>
      case SHA256 =>
      case SHA512 =>
    }
  }

  /** The first of `keys` whose name is `name`, else `none`. */
  function FindByName(name: string, keys: seq<Algorithm>): (a: Algorithm)
    requires forall k :: k in keys ==> k in HashAlgorithmMap
    ensures a == None <==> forall k :: k in keys ==> HashAlgorithmMap[k] != name
    ensures a != None ==> a in keys && HashAlgorithmMap[a] == name
  {
    if |keys| == 0 then None
    else if HashAlgorithmMap[keys[0]] == name then keys[0]
    else FindByName(name, keys[1..])
  }

  /** `mapAlgorithm(const std::string &)`: the algorithm of that name, or
      `none` for any other text. */
  function AlgorithmFromName(name: string): (a: Algorithm)
    ensures a == None <==> name !in HashAlgorithmMap.Values
    ensures a != None ==> a in HashAlgorithmMap && HashAlgorithmMap[a] == name
  {
    NamedAreTheKeys();
    FindByName(name, Named)
  }

  /** `mapAlgorithm(Algorithm)`: the name of the algorithm, "unknown" for
      `none`. */
  function AlgorithmName(a: Algorithm): (name: string)
    ensures a == None <==> name == "unknown"
    ensures a != None ==> name in HashAlgorithmMap.Values && AlgorithmFromName(name) == a
  {
    if a in HashAlgorithmMap then
      assert |HashAlgorithmMap[a]| != |"unknown"|;
      HashAlgorithmMap[a]
    else
      NamedAreTheKeys();
      "unknown"
  }

  /** Reading a name back gives the algorithm; printing a known name gives the
      text back. */
  lemma {:induction false} NameRoundTrips(a: Algorithm, name: string)
    ensures a != None ==> AlgorithmFromName(AlgorithmName(a)) == a
    ensures AlgorithmFromName(name) != None ==> AlgorithmName(AlgorithmFromName(name)) == name
    ensures AlgorithmFromName(name) == None ==> AlgorithmName(AlgorithmFromName(name)) == "unknown"
  {
    var b := AlgorithmFromName(name);
    if b != None {
      assert HashAlgorithmMap[b] == name;
    }
  }

  /** "unknown" is not the name of any algorithm, so the two directions never
      confuse it with one. */
  lemma UnknownIsNoName()
    ensures AlgorithmFromName("unknown") == None
    ensures AlgorithmFromName("sha256") == SHA256 && AlgorithmFromName("MD5") == None
  {
    assert "unknown" != "md5" && "unknown" != "sha1" && "unknown" != "sha256" && "unknown" != "sha512";
    assert "MD5" != "md5" && "MD5" != "sha1" && "MD5" != "sha256" && "MD5" != "sha512";
  }

  /** The `EVP_MD` handles the switch of `digest` chooses from. */
  datatype Md = Md5 | Sha1 | Sha256 | Sha512

  /** `EVP_MD_get_size`: the number of bytes `EVP_DigestFinal_ex` writes. */
  function MdSize(md: Md): nat {
    match md
    case Md5 => 16
    case Sha1 => 20
    case Sha256 => 32
    case Sha512 => 64
  }

  /** The switch of `digest`: a handle for every algorithm but `none`. */
  function SelectMd(a: Algorithm): (md: Wrappers.Option<Md>)
    ensures md.None? <==> a == None
    ensures md == Wrappers.Some(Md5) <==> a == MD5
    ensures md == Wrappers.Some(Sha1) <==> a == SHA1
    ensures md == Wrappers.Some(Sha256) <==> a == SHA256
    ensures md == Wrappers.Some(Sha512) <==> a == SHA512
  {
    match a
    case None => Wrappers.None
    case MD5 => Wrappers.Some(Md5)
    case SHA1 => Wrappers.Some(Sha1)
    case SHA256 => Wrappers.Some(Sha256)
    case SHA512 => Wrappers.Some(Sha512)
  }

  /** `digest(str, algorithm)`, SHA-256 by default: the digest bytes in order, two lower-case
      hexadecimal digits each. Without a handle (`none`) or when
      `EVP_MD_CTX_new` fails (`contextCreated` false) the length stays 0 and
      the text is empty. */
  function Digest(data: seq<byte>, evp: (Md, seq<byte>) -> seq<byte>, contextCreated: bool,
                  algorithm: Algorithm := SHA256): (hex: string)
    ensures IsLowerHex(hex) && |hex| % 2 == 0
    ensures algorithm == None || !contextCreated ==> hex == ""
    ensures algorithm != None && contextCreated ==>
      var out := evp(SelectMd(algorithm).value, data);
      |hex| == 2 * |out| && ParseHexPairs(hex) == out
  {
    match SelectMd(algorithm)
    case None => ""
    case Some(md) =>
      if contextCreated then
        var out := evp(md, data);
        ParseHexOf(out);
        HexOf(out)
      else ""
  }

  /** With a digest of the algorithm's size the text has twice as many
      characters: 32 for MD5, 40 for SHA-1, 64 for SHA-256, 128 for SHA-512. */
  lemma DigestLength(data: seq<byte>, algorithm: Algorithm, evp: (Md, seq<byte>) -> seq<byte>)
    requires algorithm != None
    requires |evp(SelectMd(algorithm).value, data)| == MdSize(SelectMd(algorithm).value)
    ensures algorithm == MD5 ==> |Digest(data, evp, true, algorithm)| == 32
    ensures algorithm == SHA1 ==> |Digest(data, evp, true, algorithm)| == 40
    ensures algorithm == SHA256 ==> |Digest(data, evp, true, algorithm)| == 64
    ensures algorithm == SHA512 ==> |Digest(data, evp, true, algorithm)| == 128
  {
  }

  /** Two digests render alike exactly when their bytes are alike. */
  lemma DigestTextDeterminesBytes(data1: seq<byte>, data2: seq<byte>, algorithm: Algorithm,
                                  evp: (Md, seq<byte>) -> seq<byte>)
    requires algorithm != None
    ensures Digest(data1, evp, true, algorithm) == Digest(data2, evp, true, algorithm)
        <==> evp(SelectMd(algorithm).value, data1) == evp(SelectMd(algorithm).value, data2)
  {
  }
}
