/**
 * The stored password record `scrypt$<salt>$<digest>`: how `hashPassword` writes it
 * and how `verifyPassword` reads and checks it. The key-derivation function is a
 * parameter: any function from (password, salt) to bytes stands for `scryptSync(…, 64)`.
 */
module Credentials {

  import Text
  import Hex

  /** `scryptSync(password, salt, 64)`, left abstract. */
  type Kdf = (string, string) -> seq<Hex.byte>

  const Algorithm: string := "scrypt"

  /** `hashPassword(password, salt)`: the algorithm, the salt and the hex digest joined by `$`. */
  function HashPassword(kdf: Kdf, password: string, salt: string): (record: string)
    ensures |record| == |Algorithm| + 2 + |salt| + 2 * |kdf(password, salt)|
    ensures record[..|Algorithm| + 1] == Algorithm + "$"
    ensures forall k | |record| - 2 * |kdf(password, salt)| <= k < |record| :: Hex.IsLowerHex(record[k])
  {
    Algorithm + "$" + salt + "$" + Hex.Encode(kdf(password, salt))
  }

  /** The first three `$`-separated fields of a record; a missing field reads as "". */
  datatype Fields = Fields(algo: string, salt: string, stored: string)

  function Field(fields: seq<string>, k: nat): string
  {
    if k < |fields| then fields[k] else ""
  }

  /** `const [algo, salt, stored] = passwordHash.split("$")`. */
  function ParseRecord(record: string): (f: Fields)
    ensures '$' !in f.algo && '$' !in f.salt && '$' !in f.stored
  {
    var fields := Text.Split(record, '$');
    Fields(fields[0], Field(fields, 1), Field(fields, 2))
  }

  /** The checks `verifyPassword` makes before comparing digests. */
  predicate WellFormedRecord(f: Fields)
  {
    f.algo == Algorithm && f.salt != "" && f.stored != ""
  }

  /**
   * `verifyPassword(password, record)`: the record must name scrypt and carry a salt
   * and a digest; the digest recomputed with that salt must decode to the same bytes
   * as the stored one. The constant-time comparison is a plain equality here.
   */
  function VerifyPassword(kdf: Kdf, password: string, record: string): (ok: bool)
    ensures ok <==> WellFormedRecord(ParseRecord(record))
                    && Hex.Decode(ParseRecord(record).stored) == kdf(password, ParseRecord(record).salt)
  {
    var f := ParseRecord(record);
    if !WellFormedRecord(f) then false
    else
      var computed := Hex.Encode(kdf(password, f.salt));
      var a := Hex.Decode(f.stored);
      var b := Hex.Decode(computed);
      Hex.DecodeEncode(kdf(password, f.salt));
      |a| == |b| && a == b
  }

  /** Parsing a record in the written format recovers its salt and digest exactly. */
  lemma ParseWrittenRecord(salt: string, digest: string)
    requires '$' !in salt && '$' !in digest
    ensures ParseRecord(Algorithm + "$" + salt + "$" + digest) == Fields(Algorithm, salt, digest)
  {
    var record := Algorithm + "$" + salt + "$" + digest;
    assert record == Algorithm + ['$'] + (salt + ['$'] + digest);
    Text.SplitAfterField(Algorithm, '$', salt + ['$'] + digest);
    Text.SplitAfterField(salt, '$', digest);
    Text.SplitNoSep(digest, '$');
  }

  /** A record written by `hashPassword` parses back into its salt and the hex of its digest. */
  lemma ParseHashPassword(kdf: Kdf, password: string, salt: string)
    requires '$' !in salt
    ensures ParseRecord(HashPassword(kdf, password, salt))
            == Fields(Algorithm, salt, Hex.Encode(kdf(password, salt)))
  {
    ParseWrittenRecord(salt, Hex.Encode(kdf(password, salt)));
  }

  /** The password a record was written for verifies against it. */
  lemma VerifyOwnRecord(kdf: Kdf, password: string, salt: string)
    requires salt != "" && '$' !in salt
    requires kdf(password, salt) != []
    ensures VerifyPassword(kdf, password, HashPassword(kdf, password, salt))
  {
    ParseHashPassword(kdf, password, salt);
    Hex.DecodeEncode(kdf(password, salt));
  }

  /** A password whose digest under the record's salt differs is refused. */
  lemma VerifyRefusesOtherDigest(kdf: Kdf, password: string, other: string, salt: string)
    requires '$' !in salt
    requires kdf(other, salt) != kdf(password, salt)
    ensures !VerifyPassword(kdf, other, HashPassword(kdf, password, salt))
  {
    ParseHashPassword(kdf, password, salt);
    Hex.DecodeEncode(kdf(password, salt));
  }
}
