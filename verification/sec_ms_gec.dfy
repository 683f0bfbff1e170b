/**
 Derivation of the `Sec-MS-GEC` token (`gen_sec_ms_gec` in src/lib.rs).
 The wall clock and SHA-256 are outside the model: the Unix time in seconds
 and the hash function are parameters. All arithmetic is on `u64` in the
 source, so the one multiplication that can overflow is guarded by a
 precondition on the input time.
 */
module SecMsGec {
  import opened Wrappers
  import opened Strings

  /** Seconds from 1601-01-01 (Windows FILETIME epoch) to 1970-01-01. */
  const FiletimeEpochOffset: nat := 11644473600
  /** The token rotates every five minutes. */
  const BucketSeconds: nat := 300
  const NanosPerSecond: nat := 1_000_000_000
  /** FILETIME counts 100-nanosecond ticks. */
  const NanosPerTick: nat := 100
  const TicksPerSecond: nat := 10_000_000
  const U64Max: nat := 0xFFFF_FFFF_FFFF_FFFF
  /**
   The latest Unix time (in seconds) for which `sec * 1_000_000_000` still
   fits in a `u64`; see `OverflowBound`.
   */
  const MaxUnixSeconds: nat := 6802270499
  /** The fixed client secret appended to the tick count. */
  const TrustedClientToken := "6A5AA1D4EAFF4E9FB37E23D68491D6F4"

  /** A SHA-256 digest. */
  type Digest = d: seq<byte> | |d| == 32 witness seq(32, _ => 0 as byte)

  /** Unix seconds shifted to the FILETIME epoch. */
  function FiletimeSeconds(unix: nat): nat
  {
    unix + FiletimeEpochOffset
  }

  /** `sec - (sec % 300)`: the start of the five-minute bucket holding `s`. */
  function BucketStart(s: nat): (b: nat)
    ensures b % BucketSeconds == 0
    ensures b <= s < b + BucketSeconds
  {
    s - s % BucketSeconds
  }

  /** `sec * 1_000_000_000 / 100`, computed in `u64`. */
  function Ticks(b: nat): (t: nat)
    requires b * NanosPerSecond <= U64Max
    ensures t == b * TicksPerSecond
  {
    b * NanosPerSecond / NanosPerTick
  }

  /**
   The multiplication in `Ticks` stays within `u64` exactly for the Unix
   times up to `MaxUnixSeconds` (some time in the year 2185).
   */
  lemma OverflowBound(unix: nat)
    ensures BucketStart(FiletimeSeconds(unix)) * NanosPerSecond <= U64Max <==> unix <= MaxUnixSeconds
  {
    var s := FiletimeSeconds(unix);
    var b := BucketStart(s);
    assert b == (s / BucketSeconds) * BucketSeconds;
    if unix <= MaxUnixSeconds {
      assert s <= 18446744099;
      assert s / BucketSeconds <= 61489146;
      assert b <= 18446743800;
    } else {
      assert s >= 18446744100;
      assert s / BucketSeconds >= 61489147;
      assert b >= 18446744100;
    }
  }

  /** The tick count hashed for a given Unix time. */
  function BucketTicks(unix: nat): (t: nat)
    requires unix <= MaxUnixSeconds
    ensures t % (BucketSeconds * TicksPerSecond) == 0
    ensures t <= FiletimeSeconds(unix) * TicksPerSecond < t + BucketSeconds * TicksPerSecond
  {
    OverflowBound(unix);
    ScaleBucket(BucketStart(FiletimeSeconds(unix)), FiletimeSeconds(unix));
    Ticks(BucketStart(FiletimeSeconds(unix)))
  }

  /** Scaling a bucket start and a time inside the bucket from seconds to ticks. */
  lemma ScaleBucket(b: nat, s: nat)
    requires b % BucketSeconds == 0 && b <= s < b + BucketSeconds
    ensures (b * TicksPerSecond) % (BucketSeconds * TicksPerSecond) == 0
    ensures b * TicksPerSecond <= s * TicksPerSecond < b * TicksPerSecond + BucketSeconds * TicksPerSecond
  {
    var q := b / 300;
    assert b == 300 * q;
    assert b * 10_000_000 == q * 3_000_000_000;
    assert s * 10_000_000 < b * 10_000_000 + 3_000_000_000;
  }

  /** `format!("{}6A5AA1D4EAFF4E9FB37E23D68491D6F4", nsec)`. */
  function HashInput(unix: nat): (r: string)
    requires unix <= MaxUnixSeconds
    ensures IsAscii(r)
    ensures |r| > |TrustedClientToken|
    ensures r[|r| - |TrustedClientToken|..] == TrustedClientToken
    ensures var digits := r[..|r| - |TrustedClientToken|];
      (forall i | 0 <= i < |digits| :: IsDigit(digits[i])) && DecimalValue(digits) == BucketTicks(unix)
    ensures |r| - |TrustedClientToken| > 1 ==> r[0] != '0'
  {
    var digits := Decimal(BucketTicks(unix));
    var r := digits + TrustedClientToken;
    assert r[..|r| - |TrustedClientToken|] == digits;
    DecimalRoundTrip(BucketTicks(unix));
    r
  }

  /**
   Two times give the same hash input exactly when they fall in the same
   300-second bucket of the FILETIME epoch.
   */
  lemma HashInputIffSameBucket(u1: nat, u2: nat)
    requires u1 <= MaxUnixSeconds && u2 <= MaxUnixSeconds
    ensures HashInput(u1) == HashInput(u2)
        <==> FiletimeSeconds(u1) / BucketSeconds == FiletimeSeconds(u2) / BucketSeconds
  {
    var s1, s2 := FiletimeSeconds(u1), FiletimeSeconds(u2);
    assert BucketStart(s1) == (s1 / BucketSeconds) * BucketSeconds;
    assert BucketStart(s2) == (s2 / BucketSeconds) * BucketSeconds;
    if HashInput(u1) == HashInput(u2) {
      var h := HashInput(u1);
      var d1, d2 := Decimal(BucketTicks(u1)), Decimal(BucketTicks(u2));
      assert d1 == h[..|h| - |TrustedClientToken|] == d2;
      DecimalInjective(BucketTicks(u1), BucketTicks(u2));
    }
  }

  /**
   The token: the SHA-256 of the hash input, rendered with `{:x}` and then
   upper-cased.
   */
  function Token(unix: nat, sha256: seq<byte> -> Digest): (r: string)
    requires unix <= MaxUnixSeconds
    ensures |r| == 64
    ensures forall i | 0 <= i < |r| :: IsUpperHexDigit(r[i])
    ensures ParseUpperHex(r) == Some(sha256(AsciiBytes(HashInput(unix))))
  {
    var digest := sha256(AsciiBytes(HashInput(unix)));
    UpperHexRoundTrip(digest);
    AsciiUpper(LowerHex(digest))
  }

  /** The token is stable within a bucket, whatever the hash function. */
  lemma TokenStableInBucket(u1: nat, u2: nat, sha256: seq<byte> -> Digest)
    requires u1 <= MaxUnixSeconds && u2 <= MaxUnixSeconds
    requires FiletimeSeconds(u1) / BucketSeconds == FiletimeSeconds(u2) / BucketSeconds
    ensures Token(u1, sha256) == Token(u2, sha256)
  {
    HashInputIffSameBucket(u1, u2);
  }
}
