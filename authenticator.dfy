/** The Authenticator object: configuration (secret, passcode length, expiry), the replay
    cache it updates on every verification, passcode derivation, and Export/Import of the
    secret. The clock is a parameter (`now`); the HMAC/PRNG chain and string hashing are
    functions fixed at construction (see `Passcode.Generator`). */
module Authenticators {
  import opened Results
  import opened Binary
  import Utf8
  import opened Codec
  import opened Passcode
  import opened ReplayCache

  const DefaultLength: Int32 := 6
  const DefaultExpire: Int32 := 30

  /** Some time step of the window [now - expire, now) derives `code`. The current second
      is not part of the window, and the window is empty when `expire <= 0`. */
  ghost predicate InWindow(draw: Generator, secret: seq<Byte>, length: int, code: string, now: int, expire: int)
  {
    exists t :: now - expire <= t < now && Derives(draw, secret, length, code, t)
  }

  /** `code` is the passcode of time step `t`. */
  ghost predicate Derives(draw: Generator, secret: seq<Byte>, length: int, code: string, t: int)
  {
    Code(draw, secret, t, length) == code
  }

  class Authenticator {
    /** HMAC-SHA256 seeding System.Random: the raw samples for (secret, t). */
    const draw: Generator
    /** string.GetHashCode: an opaque hash, collisions allowed. */
    const hashOf: string -> Int32

    var secret: Option<seq<Byte>>
    var length: Int32
    var expire: Int32
    /** The replay cache, oldest record first. */
    var hashes: seq<Hash>

    constructor (draw: Generator, hashOf: string -> Int32)
      ensures this.draw == draw && this.hashOf == hashOf
      ensures secret == None && length == DefaultLength && expire == DefaultExpire && hashes == []
    {
      this.draw, this.hashOf := draw, hashOf;
      secret, length, expire, hashes := None, DefaultLength, DefaultExpire, [];
    }

    constructor WithSecret(draw: Generator, hashOf: string -> Int32, secret: seq<Byte>)
      ensures this.draw == draw && this.hashOf == hashOf
      ensures this.secret == Some(secret) && length == DefaultLength && expire == DefaultExpire && hashes == []
    {
      this.draw, this.hashOf := draw, hashOf;
      this.secret, length, expire, hashes := Some(secret), DefaultLength, DefaultExpire, [];
    }

    constructor WithLengthExpire(draw: Generator, hashOf: string -> Int32, length: Int32, expire: Int32)
      ensures this.draw == draw && this.hashOf == hashOf
      ensures secret == None && this.length == length && this.expire == expire && hashes == []
    {
      this.draw, this.hashOf := draw, hashOf;
      secret, this.length, this.expire, hashes := None, length, expire, [];
    }

    constructor WithSecretLength(draw: Generator, hashOf: string -> Int32, secret: seq<Byte>, length: Int32)
      ensures this.draw == draw && this.hashOf == hashOf
      ensures this.secret == Some(secret) && this.length == length && expire == DefaultExpire && hashes == []
    {
      this.draw, this.hashOf := draw, hashOf;
      this.secret, this.length, expire, hashes := Some(secret), length, DefaultExpire, [];
    }

    constructor WithSecretLengthExpire(draw: Generator, hashOf: string -> Int32, secret: seq<Byte>, length: Int32, expire: Int32)
      ensures this.draw == draw && this.hashOf == hashOf
      ensures this.secret == Some(secret) && this.length == length && this.expire == expire && hashes == []
    {
      this.draw, this.hashOf := draw, hashOf;
      this.secret, this.length, this.expire, hashes := Some(secret), length, expire, [];
    }

    /** The passcode for one time step, built one digit at a time. Fails when no secret
        is set. */
    method GetCode(timestamp: int) returns (r: Result<string>)
      ensures secret.None? ==> r == Failure(SecretMissing)
      ensures secret.Some? ==> r == Success(Code(draw, secret.value, timestamp, length))
    {
      if secret.None? {
        return Failure(SecretMissing);
      }
      var key := secret.value;
      var password := "";
      var i := 0;
      while i < length
        invariant 0 <= i && (i <= length || i == 0)
        invariant |password| == i
        invariant forall k :: 0 <= k < i ==> password[k] == Digits[DigitIndex(draw, key, timestamp, k)]
      {
        password := password + [Digits[DigitIndex(draw, key, timestamp, i)]];
        i := i + 1;
      }
      assert password == Code(draw, key, timestamp, length);
      return Success(password);
    }

    /** Empties the replay cache. */
    method Clear()
      modifies this`hashes
      ensures hashes == []
    {
      hashes := [];
    }

    /** The first loop of Verify: removes the expired records in place (`RemoveAt(i); i--`)
        and notes whether a surviving record carries `hashCode`. */
    method PruneAndLookUp(hashCode: Int32, now: int) returns (used: bool)
      modifies this`hashes
      ensures hashes == Prune(old(hashes), now, expire)
      ensures used == Contains(hashes, hashCode)
    {
      used := false;
      ghost var original := hashes;
      ghost var j := 0;
      var i: int := 0;
      assert original[..0] == [] && original[0..] == original;
      assert hashes == Prune(original[..0], now, expire) + original[0..];
      while i < |hashes|
        invariant 0 <= j <= |original|
        invariant i == |Prune(original[..j], now, expire)|
        invariant hashes == Prune(original[..j], now, expire) + original[j..]
        invariant used == Contains(Prune(original[..j], now, expire), hashCode)
        decreases |hashes| - i
      {
        ghost var kept := Prune(original[..j], now, expire);
        SplitAt(kept, original, j);
        PruneSnoc(original, j, now, expire);
        ContainsSnoc(kept, original[j], hashCode);
        if now - hashes[i].time > expire {
          hashes := hashes[..i] + hashes[i + 1..];
          assert kept + [] == kept;
          i := i - 1;
        } else if hashes[i].value == hashCode {
          used := true;
        }
        i := i + 1;
        j := j + 1;
      }
      assert j == |original| && original[..j] == original && original[j..] == [];
      assert hashes == Prune(original, now, expire) + [];
    }

    /** Checks `code` at time `now`. A code of the wrong length is refused before anything
        else happens. Otherwise the cache is pruned in place; a code whose hash is still
        cached is refused; else the window is scanned and, on a match, one record is
        appended. Deriving with no secret set fails, after the prune. */
    method Verify(code: string, now: int) returns (r: Result<bool>)
      modifies this`hashes
      ensures Utf8.Utf16Length(code) != length ==> r == Success(false) && hashes == old(hashes)
      ensures Utf8.Utf16Length(code) == length ==>
        var pruned := Prune(old(hashes), now, expire);
        if Contains(pruned, hashOf(code)) then r == Success(false) && hashes == pruned
        else if expire <= 0 then r == Success(false) && hashes == pruned
        else if secret.None? then r == Failure(SecretMissing) && hashes == pruned
        else
          var accepted := InWindow(draw, secret.value, length, code, now, expire);
          r == Success(accepted) && hashes == pruned + (if accepted then [Hash(hashOf(code), now)] else [])
    {
      if Utf8.Utf16Length(code) != length {
        return Success(false);
      }
      var hashCode := hashOf(code);
      var used := PruneAndLookUp(hashCode, now);
      if used {
        return Success(false);
      }
      r := ScanWindow(code, hashCode, now);
    }

    /** The second loop of Verify: derives the code of every step of [now - expire, now),
        oldest first, and on the first match appends the record (hashCode, now). */
    method ScanWindow(code: string, hashCode: Int32, now: int) returns (r: Result<bool>)
      modifies this`hashes
      ensures expire <= 0 ==> r == Success(false) && hashes == old(hashes)
      ensures expire > 0 && secret.None? ==> r == Failure(SecretMissing) && hashes == old(hashes)
      ensures expire > 0 && secret.Some? ==>
        var accepted := InWindow(draw, secret.value, length, code, now, expire);
        r == Success(accepted) && hashes == old(hashes) + (if accepted then [Hash(hashCode, now)] else [])
    {
      var value := now - expire;
      while value < now
        invariant now - expire <= value && (expire >= 0 ==> value <= now)
        invariant hashes == old(hashes)
        invariant value > now - expire ==> secret.Some?
        invariant secret.Some? ==>
          forall t :: now - expire <= t < value ==> !Derives(draw, secret.value, length, code, t)
        decreases now - value
      {
        var candidate := GetCode(value);
        if candidate.Failure? {
          return Failure(candidate.error);
        }
        if candidate.value == code {
          assert Derives(draw, secret.value, length, code, value);
          hashes := hashes + [Hash(hashCode, now)];
          return Success(true);
        }
        value := value + 1;
      }
      return Success(false);
    }

    /** Acceptance within the window: a code derived for some second of [now - expire, now)
        whose hash is not cached after the prune is accepted, and its record appended. */
    method WindowAcceptance(code: string, now: int, t: int) returns (r: Result<bool>)
      requires 0 <= length && secret.Some?
      requires now - expire <= t < now && Derives(draw, secret.value, length, code, t)
      requires !Contains(Prune(hashes, now, expire), hashOf(code))
      modifies this`hashes
      ensures r == Success(true)
      ensures hashes == Prune(old(hashes), now, expire) + [Hash(hashOf(code), now)]
    {
      CodeUtf16Length(draw, secret.value, t, length);
      assert InWindow(draw, secret.value, length, code, now, expire);
      r := Verify(code, now);
    }

    /** Writes the details and the secret in the export layout, each text prefixed with its
        `string.Length`. Fails when no secret is set. */
    method Export(details: Details) returns (r: Result<seq<Byte>>)
      requires secret.Some? ==> Encodable(details, secret.value)
      ensures secret.None? ==> r == Failure(SecretMissing)
      ensures secret.Some? ==> r == Success(EncodeAsWritten(details, secret.value))
    {
      if secret.None? {
        return Failure(SecretMissing);
      }
      var key := secret.value;
      var name, description := Utf8.Encode(details.name), Utf8.Encode(details.description);
      Utf8.Utf16LengthVersusUtf8(details.name);
      Utf8.Utf16LengthVersusUtf8(details.description);
      var nameLength: Int32, descriptionLength: Int32 := Utf8.Utf16Length(details.name), Utf8.Utf16Length(details.description);
      var writer := new BinaryWriter();
      writer.Write(Magic);
      assert writer.written == Magic;
      writer.WriteInt32(nameLength);
      writer.Write(name);
      AppendField(Magic, nameLength, name);
      ghost var afterName := writer.written;
      writer.WriteInt32(descriptionLength);
      writer.Write(description);
      AppendField(afterName, descriptionLength, description);
      ghost var afterDescription := writer.written;
      writer.WriteInt32(|key|);
      writer.Write(key);
      AppendField(afterDescription, |key|, key);
      return Success(writer.written);
    }

    /** Reads an export. A header other than the magic gives `false`, empty details and
        no change; a failing read raises its exception; only a complete read replaces the
        secret, and it does so after both text fields have been read. */
    method Import(data: seq<Byte>) returns (r: Result<bool>, details: Details)
      modifies this`secret
      ensures match Decode(data)
        case Success(None) => r == Success(false) && details == DefaultDetails && secret == old(secret)
        case Success(Some(b)) => r == Success(true) && details == b.details && secret == Some(b.secret)
        case Failure(e) => r.Failure? && r.error == e && secret == old(secret)
    {
      details := DefaultDetails;
      var reader := new BinaryReader(data);
      var magic := reader.ReadBytes(4);
      if magic.Success? && magic.value == Magic {
        var nameLength :- reader.ReadInt32();
        var name :- reader.ReadBytes(nameLength);
        details := details.(name := Utf8.Decode(name));
        var descriptionLength :- reader.ReadInt32();
        var description :- reader.ReadBytes(descriptionLength);
        details := details.(description := Utf8.Decode(description));
        var secretLength :- reader.ReadInt32();
        var key :- reader.ReadBytes(secretLength);
        secret := Some(key);
        return Success(true), details;
      }
      return Success(false), details;
    }

    /** No double acceptance: once a code is accepted at `now`, a later verification of a
        code with the same hash (the same code, or a colliding one) within `expire` seconds
        is refused. */
    method ReplayIsRejected(code: string, now: int, other: string, later: int)
      returns (first: Result<bool>, second: Result<bool>)
      modifies this`hashes
      ensures first == Success(true) && later - now <= expire && hashOf(other) == hashOf(code)
        ==> second == Success(false)
    {
      first := Verify(code, now);
      if first == Success(true) && later - now <= expire {
        RecordSurvivesPrune(hashes, Hash(hashOf(code), now), later, expire);
      }
      second := Verify(other, later);
    }

    /** Importing this object's export into `target` restores the details and the secret,
        provided the name and the description are ASCII: only there does the `string.Length`
        prefix Export writes equal the byte count Import reads. */
    method TransferSecret(target: Authenticator, details: Details)
      returns (exported: Result<seq<Byte>>, imported: Result<bool>, restored: Details)
      requires secret.Some? && Encodable(details, secret.value)
      requires Utf8.IsAscii(details.name) && Utf8.IsAscii(details.description)
      modifies target`secret
      ensures exported.Success? && imported == Success(true) && restored == details
      ensures target.secret == old(secret)
    {
      exported := Export(details);
      AsWrittenAgreesOnAscii(details, secret.value);
      RoundTrip(details, secret.value);
      imported, restored := target.Import(exported.value);
    }
  }
}
