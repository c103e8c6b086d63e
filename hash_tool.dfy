/**
 * The hash generator page: a digest written as lower-case hexadecimal,
 * and the loop that fills one result per algorithm.
 *
 * The digest itself (SHA-1, SHA-256, SHA-384 and SHA-512 of FIPS 180-4 over
 * the UTF-8 bytes of the text) is computed by the platform; it is an
 * argument of the operations that need it.
 */
module HashTool {
  import opened Chars
  import opened HexText

  newtype byte = x: int | 0 <= x < 256

  datatype Algorithm = Sha1 | Sha256 | Sha384 | Sha512

  /** The algorithms in the page's order. */
  const Algorithms: seq<Algorithm> := [Sha1, Sha256, Sha384, Sha512]

  /** The label of each algorithm, which is also its key in the results. */
  function Name(a: Algorithm): string
  {
    match a
    case Sha1 => "SHA-1"
    case Sha256 => "SHA-256"
    case Sha384 => "SHA-384"
    case Sha512 => "SHA-512"
  }

  /** The digest size of each algorithm, in bytes. */
  function DigestLength(a: Algorithm): nat
  {
    match a
    case Sha1 => 20
    case Sha256 => 32
    case Sha384 => 48
    case Sha512 => 64
  }

  /** The platform digest: the algorithm and the text give the digest bytes. */
  type Digest = (Algorithm, string) -> seq<byte>

  /** One byte as `b.toString(16).padStart(2, "0")`: two lower-case digits, high nibble first. */
  function ByteHex(b: byte): (s: string)
    ensures s == [Digit(b as int / 16), Digit(b as int % 16)]
    ensures IsHexDigit(s[0]) && IsHexDigit(s[1]) && !IsUpper(s[0]) && !IsUpper(s[1])
    ensures PairValue(s[0], s[1]) == b as int
  {
    Hex2OfByte(b as int);
    PairValueOfHex2(b as int);
    Hex2(b as int)
  }

  /** `hashArray.map(b => b.toString(16).padStart(2, "0")).join("")`. */
  function ToHex(bytes: seq<byte>): (s: string)
    ensures |s| == 2 * |bytes|
    ensures forall i :: 0 <= i < |s| ==> IsHexDigit(s[i]) && !IsUpper(s[i])
  {
    if bytes == [] then ""
    else ToHex(bytes[..|bytes| - 1]) + ByteHex(bytes[|bytes| - 1])
  }

  /** Byte `i` is written at positions `2i` and `2i + 1`, high nibble first. */
  lemma {:induction false} ToHexAt(bytes: seq<byte>, i: nat)
    requires i < |bytes|
    ensures ToHex(bytes)[2 * i] == Digit(bytes[i] as int / 16)
    ensures ToHex(bytes)[2 * i + 1] == Digit(bytes[i] as int % 16)
  {
    var n := |bytes| - 1;
    if i < n {
      ToHexAt(bytes[..n], i);
    }
  }

  /** Reading two hexadecimal digits per byte: the inverse of `ToHex`. */
  function FromHex(s: string): (bytes: seq<byte>)
    requires |s| % 2 == 0
    requires forall i :: 0 <= i < |s| ==> IsHexDigit(s[i])
    ensures |bytes| == |s| / 2
  {
    if s == [] then []
    else FromHex(s[..|s| - 2]) + [PairValue(s[|s| - 2], s[|s| - 1]) as byte]
  }

  /** Reading the two digits of one more byte appends that byte. */
  lemma FromHexSnoc(t: string, b: byte)
    requires |t| % 2 == 0
    requires forall i :: 0 <= i < |t| ==> IsHexDigit(t[i])
    ensures var s := t + ByteHex(b);
      && (forall i :: 0 <= i < |s| ==> IsHexDigit(s[i]))
      && FromHex(s) == FromHex(t) + [b]
  {
    var pair := ByteHex(b);
    var s := t + pair;
    assert s[..|s| - 2] == t;
    assert s[|s| - 2] == pair[0] && s[|s| - 1] == pair[1];
  }

  /** Decoding the hexadecimal text gives the bytes back. */
  lemma {:induction false} FromHexToHex(bytes: seq<byte>)
    ensures FromHex(ToHex(bytes)) == bytes
  {
    if bytes != [] {
      var init := bytes[..|bytes| - 1];
      var b := bytes[|bytes| - 1];
      assert bytes == init + [b];
      assert ToHex(bytes) == ToHex(init) + ByteHex(b);
      FromHexToHex(init);
      FromHexSnoc(ToHex(init), b);
    }
  }

  /** So two digests with the same text are the same digest. */
  lemma ToHexInjective(a: seq<byte>, b: seq<byte>)
    requires ToHex(a) == ToHex(b)
    ensures a == b
  {
    FromHexToHex(a);
    FromHexToHex(b);
  }

  /** `hashText`: the platform digest of the text, written in hexadecimal. */
  function HashText(text: string, a: Algorithm, digest: Digest): string
  {
    ToHex(digest(a, text))
  }

  /** With a well-sized digest the hash text has 40, 64, 96 or 128 characters. */
  lemma HashTextLength(text: string, a: Algorithm, digest: Digest)
    requires |digest(a, text)| == DigestLength(a)
    ensures |HashText(text, a, digest)| == 2 * DigestLength(a)
    ensures a == Sha1 ==> |HashText(text, a, digest)| == 40
    ensures a == Sha512 ==> |HashText(text, a, digest)| == 128
  {
  }

  /** The `results` record after the loop has visited `algs`, in order. */
  function Results(algs: seq<Algorithm>, text: string, digest: Digest): map<string, string>
  {
    if algs == [] then map[]
    else
      var a := algs[|algs| - 1];
      Results(algs[..|algs| - 1], text, digest)[Name(a) := HashText(text, a, digest)]
  }

  /** One more algorithm adds its entry to the record. */
  lemma ResultsSnoc(algs: seq<Algorithm>, k: nat, text: string, digest: Digest)
    requires k < |algs|
    ensures Results(algs[..k + 1], text, digest) == Results(algs[..k], text, digest)[Name(algs[k]) := HashText(text, algs[k], digest)]
  {
    assert algs[..k + 1][..k] == algs[..k];
  }

  /** The record holds exactly the visited algorithms' names, each with its own digest text. */
  lemma {:induction false} ResultsContents(algs: seq<Algorithm>, text: string, digest: Digest)
    ensures forall key :: key in Results(algs, text, digest) <==> exists a :: a in algs && Name(a) == key
    ensures forall a :: a in algs ==> Results(algs, text, digest)[Name(a)] == HashText(text, a, digest)
  {
    if algs != [] {
      var init := algs[..|algs| - 1];
      ResultsContents(init, text, digest);
      assert algs == init + [algs[|algs| - 1]];
      forall a | a in algs ensures Results(algs, text, digest)[Name(a)] == HashText(text, a, digest) {
        if a != algs[|algs| - 1] {
          assert a in init;
        }
      }
    }
  }

  /** The page offers every algorithm. */
  lemma EveryAlgorithmListed(a: Algorithm)
    ensures a in Algorithms
  {
    match a
    case Sha1 => assert Algorithms[0] == a;
    case Sha256 => assert Algorithms[1] == a;
    case Sha384 => assert Algorithms[2] == a;
    case Sha512 => assert Algorithms[3] == a;
  }

  /** Every algorithm has its entry once the loop is over, holding that algorithm's digest text. */
  lemma AllResults(text: string, digest: Digest)
    ensures forall a :: Name(a) in Results(Algorithms, text, digest)
    ensures forall a :: Results(Algorithms, text, digest)[Name(a)] == HashText(text, a, digest)
  {
    ResultsContents(Algorithms, text, digest);
    forall a ensures Name(a) in Results(Algorithms, text, digest) && Results(Algorithms, text, digest)[Name(a)] == HashText(text, a, digest) {
      EveryAlgorithmListed(a);
    }
  }

  /** The record has no keys but the four algorithm names. */
  lemma ResultKeys(text: string, digest: Digest)
    ensures Results(Algorithms, text, digest).Keys == {"SHA-1", "SHA-256", "SHA-384", "SHA-512"}
  {
    var h := (a: Algorithm) => HashText(text, a, digest);
    assert Algorithms[..1][..0] == [];
    assert Algorithms[..2][..1] == Algorithms[..1];
    assert Algorithms[..3][..2] == Algorithms[..2];
    assert Algorithms[..4][..3] == Algorithms[..3];
    assert Results(Algorithms[..1], text, digest) == map["SHA-1" := h(Sha1)];
    assert Results(Algorithms[..2], text, digest) == map["SHA-1" := h(Sha1), "SHA-256" := h(Sha256)];
    assert Results(Algorithms[..3], text, digest).Keys == {"SHA-1", "SHA-256", "SHA-384"};
    assert Algorithms[..4] == Algorithms;
    assert Results(Algorithms, text, digest).Keys == Results(Algorithms[..3], text, digest).Keys + {"SHA-512"};
  }

  class HashPage {
    var text: string
    var hashes: map<string, string>
    var loading: bool

    constructor ()
      ensures text == "" && hashes == map[] && !loading
    {
      text := "";
      hashes := map[];
      loading := false;
    }

    /**
     * `generateHashes`: nothing on an empty text; otherwise `loading` is on
     * while one result per algorithm is computed, then the results replace
     * `hashes` and `loading` goes off.
     */
    method GenerateHashes(digest: Digest)
      modifies this
      ensures text == old(text)
      ensures old(text) == "" ==> hashes == old(hashes) && loading == old(loading)
      ensures old(text) != "" ==> !loading && hashes == Results(Algorithms, text, digest)
    {
      if text == "" {
        return;
      }
      loading := true;
      var results: map<string, string> := map[];
      var k := 0;
      while k < |Algorithms|
        invariant 0 <= k <= |Algorithms|
        invariant loading && text == old(text)
        invariant results == Results(Algorithms[..k], text, digest)
      {
        var a := Algorithms[k];
        ResultsSnoc(Algorithms, k, text, digest);
        results := results[Name(a) := HashText(text, a, digest)];
        k := k + 1;
      }
      assert Algorithms[..k] == Algorithms;
      hashes := results;
      loading := false;
    }
  }
}
