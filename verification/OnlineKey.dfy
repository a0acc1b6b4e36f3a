/** Online keys, which sign responses for a limited time, and the long-term identity that delegates to them. */
module OnlineKeys {
  import opened Wrappers
  import opened Primitives
  import opened Cursors
  import opened Versions
  import opened WordLists
  import opened Certificates
  import opened Crypto
  import SR = SignedResponses
  import LSR = LegacySignedResponses

  /** What an online key signs, in the form of its draft. */
  datatype Srep = Srep14(srep: SR.SignedResponse) | Srep08(legacy: LSR.SignedResponse) {

    function Size(): nat {
      match this
      case Srep14(srep) => srep.Size()
      case Srep08(_) => LSR.SIZE
    }

    function Encode(): (b: Bytes)
      ensures |b| == Size()
    {
      match this
      case Srep14(srep) => SR.Encode(srep)
      case Srep08(legacy) => LSR.Encode(legacy)
    }

    function Stamped(root: Bytes32, now: u64): (s: Srep)
      ensures s.Size() == Size()
    {
      match this
      case Srep14(srep) => Srep14(srep.(root := root, midp := now))
      case Srep08(legacy) => Srep08(legacy.(root := root, midp := now))
    }
  }

  function Template(version: ProtocolVersion): Srep {
    match version
    case RfcDraft14 => Srep14(SR.DEFAULT_SREP.(radi := SR.DEFAULT_RADI_SECONDS).SetVers([version]).(ver := version))
    case RfcDraft08 => Srep08(LSR.DEFAULT_SREP.(radi := SR.DEFAULT_RADI_SECONDS))
  }

  /** An online key as a value: its version, its private seed and its certificate. */
  datatype Key = Key(version: ProtocolVersion, seed: Bytes32, cert: Certificate)

  function MakeSrep(key: Key, root: Bytes32, now: u64): Srep {
    Template(key.version).Stamped(root, now)
  }

  function SignSrep(suite: Suite, key: Key, srep: Srep): Bytes64 {
    suite.sign(key.seed, key.version.SrepPrefix() + srep.Encode())
  }

  /** A new online key, delegated to by the identity from `now` on. */
  function IssueKey(suite: Suite, identity: Bytes32, version: ProtocolVersion, seed: Bytes32, now: u64, validity: u64): Key {
    var dele := NewDelegation(suite.publicKey(seed), now, validity);
    Key(version, seed, Certificate(suite.sign(identity, version.DelePrefix() + EncodeDele(dele)), dele))
  }

  class OnlineKey {
    const suite: Suite
    const version: ProtocolVersion
    const seed: Bytes32
    var cert: Certificate
    const template: Srep
    const signingBuf: array<byte>

    ghost predicate Valid()
      reads this, signingBuf
    {
      && template == Template(version)
      && signingBuf.Length == 32 + template.Size()
      && signingBuf[..32] == version.SrepPrefix()
    }

    ghost function Value(): Key
      reads this
    {
      Key(version, seed, cert)
    }

    constructor (suite: Suite, version: ProtocolVersion, seed: Bytes32)
      ensures Valid() && fresh(signingBuf)
      ensures this.suite == suite && this.version == version && this.seed == seed
    {
      this.suite, this.version, this.seed := suite, version, seed;
      var template := Template(version);
      this.template := template;
      cert := Certificate(Zeros(64), Delegation(Zeros(32), 0, 0));
      var prefix := version.SrepPrefix();
      signingBuf := new byte[32 + template.Size()](i => if 0 <= i < |prefix| then prefix[i] else 0);
      new;
      assert signingBuf[..32] == version.SrepPrefix();
    }

    method SetCert(certificate: Certificate)
      requires Valid()
      modifies this`cert
      ensures Valid() && cert == certificate
    {
      cert := certificate;
    }

    /** Stamps the template, prints it behind the context prefix and signs the whole buffer. */
    method Sign(root: Bytes32, now: u64) returns (srep: Srep, sig: Bytes64)
      requires Valid()
      modifies signingBuf
      ensures Valid()
      ensures srep == MakeSrep(Value(), root, now) && sig == SignSrep(suite, Value(), srep)
    {
      srep := template.Stamped(root, now);
      var total := 32 + srep.Size();
      var cursor := new ParseCursor(signingBuf, 32, total);
      assert cursor.Written() == [] && signingBuf[..32] == version.SrepPrefix();
      match srep {
        case Srep14(s) => var done := SR.ToWire(s, cursor);
        case Srep08(s) => var done := LSR.ToWire(s, cursor);
      }
      assert cursor.Written() == srep.Encode() && cursor.Outside().0 == version.SrepPrefix();
      assert cursor.Written() == signingBuf[32..total];
      assert signingBuf[..total] == signingBuf[..32] + signingBuf[32..total];
      sig := suite.sign(seed, signingBuf[..total]);
    }
  }

  class LongTermIdentity {
    const suite: Suite
    const seed: Bytes32
    const version: ProtocolVersion

    constructor (suite: Suite, seed: Bytes32, version: ProtocolVersion)
      ensures this.suite == suite && this.seed == seed && this.version == version
    {
      this.suite, this.seed, this.version := suite, seed, version;
    }

    /** The seed of the new key stands for the random generator, `now` for the reading of the clock. */
    method MakeOnlineKey(keySeed: Bytes32, now: u64, validity: u64) returns (key: OnlineKey)
      ensures fresh(key) && fresh(key.signingBuf) && key.Valid() && key.suite == suite
      ensures key.Value() == IssueKey(suite, seed, version, keySeed, now, validity)
    {
      key := new OnlineKey(suite, version, keySeed);
      var dele := NewDelegation(suite.publicKey(keySeed), now, validity);
      var buf := new byte[DELE_SIZE](_ => 0);
      var cursor := new ParseCursor(buf, 0, DELE_SIZE);
      var done := DeleToWire(dele, cursor);
      assert cursor.Written() == buf[..] == EncodeDele(dele);
      var toSign := version.DelePrefix() + buf[..];
      key.SetCert(Certificate(suite.sign(seed, toSign), dele));
    }
  }
}
