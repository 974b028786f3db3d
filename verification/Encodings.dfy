/** Encodings that carry identity: UTF-8, lower-case hex, length-prefixed fields. Each can be read back in one way only. */
module Encodings {
  import opened Common
  import opened Text
  import opened Operations
  import OF = OperationForms

  type Byte = n: int | 0 <= n < 256

  // ---- UTF-8 ----

  function CharUtf8(c: char): (b: seq<Byte>)
    ensures |b| == CharBytes(c)
  {
    var n := c as int;
    if n < 0x80 then [n]
    else if n < 0x800 then [0xC0 + n / 64, 0x80 + n % 64]
    else if n < 0x10000 then [0xE0 + n / 4096, 0x80 + n / 64 % 64, 0x80 + n % 64]
    else [0xF0 + n / 262144, 0x80 + n / 4096 % 64, 0x80 + n / 64 % 64, 0x80 + n % 64]
  }

  function Utf8(s: string): (b: seq<Byte>)
    ensures |b| == ByteLength(s)
  {
    if s == [] then [] else CharUtf8(s[0]) + Utf8(s[1..])
  }

  /** How long the first character is, by its first byte. */
  function Width(b: Byte): nat { if b < 0x80 then 1 else if b < 0xE0 then 2 else if b < 0xF0 then 3 else 4 }

  function Code(b: seq<Byte>): int
    requires 1 <= |b| <= 4
  {
    var d: seq<int> := b;
    if |d| == 1 then d[0]
    else if |d| == 2 then (d[0] - 0xC0) * 64 + (d[1] - 0x80)
    else if |d| == 3 then (d[0] - 0xE0) * 4096 + (d[1] - 0x80) * 64 + (d[2] - 0x80)
    else (d[0] - 0xF0) * 262144 + (d[1] - 0x80) * 4096 + (d[2] - 0x80) * 64 + (d[3] - 0x80)
  }

  lemma Base64Digits(n: int)
    requires 0 <= n < 0x110000
    ensures n == n / 262144 * 262144 + n / 4096 % 64 * 4096 + n / 64 % 64 * 64 + n % 64
    ensures n < 0x10000 ==> n == n / 4096 * 4096 + n / 64 % 64 * 64 + n % 64
    ensures n < 0x800 ==> n == n / 64 * 64 + n % 64
  {
    assert n / 4096 == n / 64 / 64;
    assert n / 262144 == n / 4096 / 64;
  }

  lemma CharReadsBack(c: char)
    ensures Width(CharUtf8(c)[0]) == |CharUtf8(c)| && Code(CharUtf8(c)) == c as int
  {
    Base64Digits(c as int);
  }

  lemma FirstCharSame(a: char, b: char, x: seq<Byte>, y: seq<Byte>)
    requires CharUtf8(a) + x == CharUtf8(b) + y
    ensures a == b && x == y
  {
    var s := CharUtf8(a) + x;
    CharReadsBack(a);
    CharReadsBack(b);
    assert s[0] == CharUtf8(a)[0] && s[0] == CharUtf8(b)[0];
    var n := Width(s[0]);
    assert s[..n] == CharUtf8(a) && s[..n] == CharUtf8(b);
    assert s[n..] == x && s[n..] == y;
  }

  /** Different texts have different bytes. */
  lemma {:induction false} Utf8Injective(a: string, b: string)
    requires Utf8(a) == Utf8(b)
    ensures a == b
  {
    if a != [] && b != [] {
      FirstCharSame(a[0], b[0], Utf8(a[1..]), Utf8(b[1..]));
      Utf8Injective(a[1..], b[1..]);
      assert a == [a[0]] + a[1..] && b == [b[0]] + b[1..];
    }
  }

  // ---- Hex ----

  function HexDigit(n: int): (c: char)
    requires 0 <= n < 16
    ensures c == "0123456789abcdef"[n]
  {
    if n < 10 then (48 + n) as char else (87 + n) as char
  }

  function HexBytes(b: seq<Byte>): string {
    if b == [] then [] else [HexDigit(b[0] / 16), HexDigit(b[0] % 16)] + HexBytes(b[1..])
  }

  lemma {:induction false} HexNext(b: seq<Byte>, i: nat)
    requires i < |b|
    ensures HexBytes(b[..i + 1]) == HexBytes(b[..i]) + [HexDigit(b[i] / 16), HexDigit(b[i] % 16)]
    decreases i
  {
    if i == 0 {
      assert b[..1][1..] == [];
    } else {
      assert b[..i + 1][1..] == b[1..][..i] && b[..i][1..] == b[1..][..i - 1];
      HexNext(b[1..], i - 1);
    }
  }

  /** Two lower-case digits for each byte, the high half first. */
  lemma {:induction false} HexReads(b: seq<Byte>, i: nat)
    requires i < |b|
    ensures |HexBytes(b)| == 2 * |b|
    ensures HexBytes(b)[2 * i] == "0123456789abcdef"[b[i] / 16] && HexBytes(b)[2 * i + 1] == "0123456789abcdef"[b[i] % 16]
  {
    if |b| > 1 {
      HexReads(b[1..], if i == 0 then 0 else i - 1);
    } else {
      assert b[1..] == [];
    }
  }

  method HexComponent(value: string) returns (encoded: string)
    ensures encoded == HexBytes(Utf8(value))
  {
    var bytes := Utf8(value);
    encoded := [];
    for i := 0 to |bytes|
      invariant encoded == HexBytes(bytes[..i])
    {
      HexNext(bytes, i);
      encoded := encoded + [HexDigit(bytes[i] / 16)];
      encoded := encoded + [HexDigit(bytes[i] % 16)];
    }
    assert bytes[..|bytes|] == bytes;
  }

  lemma HexDigitInjective(m: int, n: int)
    requires 0 <= m < 16 && 0 <= n < 16 && HexDigit(m) == HexDigit(n)
    ensures m == n
  {
  }

  lemma {:induction false} HexInjective(a: seq<Byte>, b: seq<Byte>)
    requires HexBytes(a) == HexBytes(b)
    ensures a == b
  {
    if a != [] && b != [] {
      var x, y := HexBytes(a), HexBytes(b);
      assert x[0] == HexDigit(a[0] / 16) && y[0] == HexDigit(b[0] / 16);
      assert x[1] == HexDigit(a[0] % 16) && y[1] == HexDigit(b[0] % 16);
      HexDigitInjective(a[0] / 16, b[0] / 16);
      HexDigitInjective(a[0] % 16, b[0] % 16);
      assert x[2..] == HexBytes(a[1..]) && y[2..] == HexBytes(b[1..]);
      HexInjective(a[1..], b[1..]);
      assert a == [a[0]] + a[1..] && b == [b[0]] + b[1..];
    }
  }

  lemma {:induction false} HexHasNoColon(b: seq<Byte>)
    ensures ':' !in HexBytes(b)
  {
    if b != [] {
      HexHasNoColon(b[1..]);
    }
  }

  // ---- Event ids ----

  function Decimal(n: nat): string {
    if n < 10 then [(48 + n) as char] else Decimal(n / 10) + [(48 + n % 10) as char]
  }

  lemma {:induction false} DecimalInjective(m: nat, n: nat)
    requires Decimal(m) == Decimal(n)
    ensures m == n
  {
    var x, y := Decimal(m), Decimal(n);
    DecimalNonEmpty(m / 10);
    DecimalNonEmpty(n / 10);
    assert x[|x| - 1] == (48 + m % 10) as char && y[|y| - 1] == (48 + n % 10) as char;
    if m >= 10 && n >= 10 {
      assert x[..|x| - 1] == Decimal(m / 10) && y[..|y| - 1] == Decimal(n / 10);
      DecimalInjective(m / 10, n / 10);
    }
  }

  lemma {:induction false} DecimalNonEmpty(n: nat)
    ensures Decimal(n) != [] && ':' !in Decimal(n)
  {
    if n >= 10 {
      DecimalNonEmpty(n / 10);
    }
  }

  function EventId(version: nat, producer: string, summary: string): string {
    "application-execution-summary:v" + (Decimal(version) + (":p" + (HexBytes(Utf8(producer)) + (":s" + HexBytes(Utf8(summary))))))
  }

  /** A text up to its first colon can be told from what follows. */
  lemma FirstColon(a: string, x: string, b: string, y: string)
    requires ':' !in a && ':' !in b && x != [] && y != [] && x[0] == ':' && y[0] == ':' && a + x == b + y
    ensures a == b && x == y
  {
    var s := a + x;
    assert s[|a|] == ':' && s[|b|] == ':';
    assert forall i :: 0 <= i < |a| ==> s[i] == a[i];
    assert forall i :: 0 <= i < |b| ==> s[i] == b[i];
    assert |a| == |b|;
    assert s[..|a|] == a && s[..|b|] == b && s[|a|..] == x && s[|b|..] == y;
  }

  lemma SamePrefix(p: string, x: string, y: string)
    requires p + x == p + y
    ensures x == y
  {
    assert (p + x)[|p|..] == x && (p + y)[|p|..] == y;
  }

  /** Equal event ids come from the same version, producer and summary. */
  lemma EventIdInjective(v: nat, p: string, s: string, v': nat, p': string, s': string)
    requires EventId(v, p, s) == EventId(v', p', s')
    ensures v == v' && p == p' && s == s'
  {
    var hp, hs, hp', hs' := HexBytes(Utf8(p)), HexBytes(Utf8(s)), HexBytes(Utf8(p')), HexBytes(Utf8(s'));
    var x, x' := ":p" + (hp + (":s" + hs)), ":p" + (hp' + (":s" + hs'));
    SamePrefix("application-execution-summary:v", Decimal(v) + x, Decimal(v') + x');
    DecimalNonEmpty(v);
    DecimalNonEmpty(v');
    FirstColon(Decimal(v), x, Decimal(v'), x');
    DecimalInjective(v, v');
    SamePrefix(":p", hp + (":s" + hs), hp' + (":s" + hs'));
    HexHasNoColon(Utf8(p));
    HexHasNoColon(Utf8(p'));
    FirstColon(hp, ":s" + hs, hp', ":s" + hs');
    SamePrefix(":s", hs, hs');
    HexInjective(Utf8(p), Utf8(p'));
    HexInjective(Utf8(s), Utf8(s'));
    Utf8Injective(p, p');
    Utf8Injective(s, s');
  }

  // ---- Channel bindings ----

  const FIELD_LIMIT: nat := 0x1_0000_0000

  function BigEndian(n: nat): seq<Byte>
    requires n < FIELD_LIMIT
  {
    [n / 0x1000000, n / 0x10000 % 256, n / 0x100 % 256, n % 256]
  }

  lemma BigEndianInjective(m: nat, n: nat)
    requires m < FIELD_LIMIT && n < FIELD_LIMIT && BigEndian(m) == BigEndian(n)
    ensures m == n
  {
    assert BigEndian(m)[0] == BigEndian(n)[0] && BigEndian(m)[1] == BigEndian(n)[1];
    assert BigEndian(m)[2] == BigEndian(n)[2] && BigEndian(m)[3] == BigEndian(n)[3];
    BigEndianDigits(m);
    BigEndianDigits(n);
  }

  lemma BigEndianDigits(n: nat)
    requires n < FIELD_LIMIT
    ensures n == n / 0x1000000 * 0x1000000 + n / 0x10000 % 256 * 0x10000 + n / 0x100 % 256 * 0x100 + n % 256
  {
    assert n / 0x10000 == n / 0x100 / 256;
    assert n / 0x1000000 == n / 0x10000 / 256;
  }

  /** A field: its length in four bytes, then its bytes. */
  function Field(value: seq<Byte>): seq<Byte>
    requires |value| < FIELD_LIMIT
  {
    BigEndian(|value|) + value
  }

  /** A field can be told from whatever follows it. */
  lemma FieldSame(a: seq<Byte>, x: seq<Byte>, b: seq<Byte>, y: seq<Byte>)
    requires |a| < FIELD_LIMIT && |b| < FIELD_LIMIT && Field(a) + x == Field(b) + y
    ensures a == b && x == y
  {
    var s := Field(a) + x;
    assert s[..4] == BigEndian(|a|) && s[..4] == BigEndian(|b|);
    BigEndianInjective(|a|, |b|);
    var n := 4 + |a|;
    assert s[4..n] == a && s[4..n] == b && s[n..] == x && s[n..] == y;
  }

  datatype Purpose = WorkerChannel | CoreBridge

  function PurposeText(p: Purpose): string {
    match p
    case WorkerChannel => "worker-channel"
    case CoreBridge => "core-bridge"
  }

  datatype BindingError = InvalidIdentity | InvalidWorkerPid | InvalidWorkerNonce | FieldTooLong

  const BINDING_DOMAIN: string := "cowd.app.channel-token/v1"
  const MAX_NONCE_BYTES: nat := 256

  /** The fields of a binding, in order. */
  function BindingFields(domain: string, purpose: string, appId: string, generation: string, pid: nat, nonce: string): seq<seq<Byte>>
    requires pid < FIELD_LIMIT
  {
    [Utf8(domain), Utf8(purpose), Utf8(appId), Utf8(generation), BigEndian(pid), Utf8(nonce)]
  }

  /** The fields one after another, unless one is too long for its length prefix. */
  function Framed(fields: seq<seq<Byte>>): Result<seq<Byte>, BindingError> {
    if fields == [] then Ok([])
    else if |fields[0]| >= FIELD_LIMIT then Err(FieldTooLong)
    else
      match Framed(fields[1..])
      case Err(e) => Err(e)
      case Ok(rest) => Ok(Field(fields[0]) + rest)
  }

  function IdentityError(appId: string, generation: string, pid: nat, nonce: string): Option<BindingError> {
    if !IsAppId(appId) || !IsDigest(generation) then Some(InvalidIdentity)
    else if pid == 0 then Some(InvalidWorkerPid)
    else if nonce == [] || ByteLength(nonce) > MAX_NONCE_BYTES then Some(InvalidWorkerNonce)
    else None
  }

  function Binding(p: Purpose, appId: string, generation: string, pid: nat, nonce: string): Result<seq<Byte>, BindingError>
    requires pid < FIELD_LIMIT
  {
    var error := IdentityError(appId, generation, pid, nonce);
    if error.Some? then Err(error.value)
    else Framed(BindingFields(BINDING_DOMAIN, PurposeText(p), appId, generation, pid, nonce))
  }

  lemma {:induction false} FramedConcat(a: seq<seq<Byte>>, f: seq<Byte>)
    ensures Framed(a + [f]) == match Framed(a)
                               case Err(e) => Err(e)
                               case Ok(b) => if |f| >= FIELD_LIMIT then Err(FieldTooLong) else Ok(b + Field(f))
  {
    if a == [] {
      assert [f][1..] == [] && a + [f] == [f];
      if |f| < FIELD_LIMIT {
        assert Field(f) + [] == [] + Field(f);
      }
    } else {
      assert (a + [f])[1..] == a[1..] + [f];
      FramedConcat(a[1..], f);
      if |a[0]| < FIELD_LIMIT && Framed(a[1..]).Ok? && |f| < FIELD_LIMIT {
        var rest := Framed(a[1..]).value;
        assert Field(a[0]) + (rest + Field(f)) == Field(a[0]) + rest + Field(f);
      }
    }
  }

  /** The fields are appended to a buffer one by one. */
  method FrameFields(fields: seq<seq<Byte>>) returns (r: Result<seq<Byte>, BindingError>)
    ensures r == Framed(fields)
  {
    var output: seq<Byte> := [];
    for i := 0 to |fields|
      invariant Framed(fields[..i]) == Ok(output)
    {
      assert fields[..i + 1] == fields[..i] + [fields[i]];
      FramedConcat(fields[..i], fields[i]);
      if |fields[i]| >= FIELD_LIMIT {
        FramedStuck(fields, i + 1);
        return Err(FieldTooLong);
      }
      ghost var before := output;
      output := output + BigEndian(|fields[i]|);
      output := output + fields[i];
      assert output == before + Field(fields[i]);
    }
    assert fields[..|fields|] == fields;
    return Ok(output);
  }

  lemma {:induction false} FramedStuck(fields: seq<seq<Byte>>, i: nat)
    requires i <= |fields| && Framed(fields[..i]) == Err(FieldTooLong)
    ensures Framed(fields) == Err(FieldTooLong)
    decreases |fields| - i
  {
    if i < |fields| {
      assert fields[..i + 1] == fields[..i] + [fields[i]];
      FramedConcat(fields[..i], fields[i]);
      FramedStuck(fields, i + 1);
    } else {
      assert fields[..i] == fields;
    }
  }

  method CanonicalChannelBinding(p: Purpose, appId: string, generation: string, pid: nat, nonce: string)
    returns (r: Result<seq<Byte>, BindingError>)
    requires pid < FIELD_LIMIT
    ensures r == Binding(p, appId, generation, pid, nonce)
  {
    if !IsAppId(appId) || !IsDigest(generation) {
      return Err(InvalidIdentity);
    }
    if pid == 0 {
      return Err(InvalidWorkerPid);
    }
    if nonce == [] || ByteLength(nonce) > MAX_NONCE_BYTES {
      return Err(InvalidWorkerNonce);
    }
    r := FrameFields(BindingFields(BINDING_DOMAIN, PurposeText(p), appId, generation, pid, nonce));
  }

  /** Framing is injective: lists of equal length with equal bytes are the same fields. */
  lemma {:induction false} FramedInjective(a: seq<seq<Byte>>, b: seq<seq<Byte>>)
    requires |a| == |b| && Framed(a).Ok? && Framed(a) == Framed(b)
    ensures a == b
  {
    if a != [] {
      FieldSame(a[0], Framed(a[1..]).value, b[0], Framed(b[1..]).value);
      FramedInjective(a[1..], b[1..]);
      assert a == [a[0]] + a[1..] && b == [b[0]] + b[1..];
    }
  }

  lemma FieldsInjective(d: string, p: string, appId: string, generation: string, pid: nat, nonce: string,
                        p': string, appId': string, generation': string, pid': nat, nonce': string)
    requires pid < FIELD_LIMIT && pid' < FIELD_LIMIT
    requires BindingFields(d, p, appId, generation, pid, nonce) == BindingFields(d, p', appId', generation', pid', nonce')
    ensures p == p' && appId == appId' && generation == generation' && pid == pid' && nonce == nonce'
  {
    var a, b := BindingFields(d, p, appId, generation, pid, nonce), BindingFields(d, p', appId', generation', pid', nonce');
    assert a[1] == b[1] && a[2] == b[2] && a[3] == b[3] && a[4] == b[4] && a[5] == b[5];
    Utf8Injective(p, p');
    Utf8Injective(appId, appId');
    Utf8Injective(generation, generation');
    BigEndianInjective(pid, pid');
    Utf8Injective(nonce, nonce');
  }

  /** Equal bindings come from the same purpose, APP, generation, process and nonce. */
  lemma BindingInjective(p: Purpose, appId: string, generation: string, pid: nat, nonce: string,
                         p': Purpose, appId': string, generation': string, pid': nat, nonce': string)
    requires pid < FIELD_LIMIT && pid' < FIELD_LIMIT && Binding(p, appId, generation, pid, nonce).Ok?
    requires Binding(p, appId, generation, pid, nonce) == Binding(p', appId', generation', pid', nonce')
    ensures p == p' && appId == appId' && generation == generation' && pid == pid' && nonce == nonce'
  {
    FramedInjective(BindingFields(BINDING_DOMAIN, PurposeText(p), appId, generation, pid, nonce),
                    BindingFields(BINDING_DOMAIN, PurposeText(p'), appId', generation', pid', nonce'));
    FieldsInjective(BINDING_DOMAIN, PurposeText(p), appId, generation, pid, nonce,
                    PurposeText(p'), appId', generation', pid', nonce');
    assert |PurposeText(p)| == |PurposeText(p')|;
  }

  lemma {:induction false} ShortFieldsFit(fields: seq<seq<Byte>>)
    requires forall i :: 0 <= i < |fields| ==> |fields[i]| < FIELD_LIMIT
    ensures Framed(fields).Ok?
  {
    if fields != [] {
      ShortFieldsFit(fields[1..]);
    }
  }

  lemma BindingFieldsFit(domain: string, purpose: string, appId: string, generation: string, pid: nat, nonce: string)
    requires pid < FIELD_LIMIT && |domain| <= 100 && |purpose| <= 100 && |generation| <= 100
    requires ByteLength(appId) <= 64 && ByteLength(nonce) <= MAX_NONCE_BYTES
    ensures Framed(BindingFields(domain, purpose, appId, generation, pid, nonce)).Ok?
  {
    BytesBound(domain);
    BytesBound(purpose);
    BytesBound(generation);
    ShortFieldsFit(BindingFields(domain, purpose, appId, generation, pid, nonce));
  }

  lemma IdentityBounds(appId: string, generation: string, pid: nat, nonce: string)
    ensures IdentityError(appId, generation, pid, nonce) != Some(FieldTooLong)
    ensures IdentityError(appId, generation, pid, nonce).None? ==>
              ByteLength(appId) <= 64 && |generation| <= 100 && ByteLength(nonce) <= MAX_NONCE_BYTES
  {
  }

  lemma LabelsShort(p: Purpose)
    ensures |BINDING_DOMAIN| <= 100 && |PurposeText(p)| <= 100
  {
  }

  /** No binding fails for a field that is too long: the earlier checks bound them all. */
  lemma FieldsAlwaysFit(p: Purpose, appId: string, generation: string, pid: nat, nonce: string)
    requires pid < FIELD_LIMIT
    ensures Binding(p, appId, generation, pid, nonce) != Err(FieldTooLong)
  {
    IdentityBounds(appId, generation, pid, nonce);
    LabelsShort(p);
    if IdentityError(appId, generation, pid, nonce).None? {
      BindingFieldsFit(BINDING_DOMAIN, PurposeText(p), appId, generation, pid, nonce);
    }
  }

  // ---- Reading a binding back ----

  function FromBigEndian(b: seq<Byte>): nat
    requires |b| == 4
  {
    var d: seq<int> := b;
    d[0] * 0x1000000 + d[1] * 0x10000 + d[2] * 0x100 + d[3]
  }

  /** Reads a length, then as many bytes, and so on to the end. */
  ghost function ReadFields(b: seq<Byte>): Option<seq<seq<Byte>>>
    decreases |b|
  {
    if b == [] then Some([])
    else if |b| < 4 then None
    else
      var n := FromBigEndian(b[..4]);
      if |b| < 4 + n then None
      else
        match ReadFields(b[4 + n..])
        case None => None
        case Some(rest) => Some([b[4..4 + n]] + rest)
  }

  lemma BigEndianReadsBack(n: nat)
    requires n < FIELD_LIMIT
    ensures FromBigEndian(BigEndian(n)) == n
  {
    BigEndianDigits(n);
  }

  /** Framed fields are read back in order. */
  lemma {:induction false} FramedReadsBack(fields: seq<seq<Byte>>)
    requires Framed(fields).Ok?
    ensures ReadFields(Framed(fields).value) == Some(fields)
  {
    if fields != [] {
      var b, rest := Framed(fields).value, Framed(fields[1..]).value;
      var n := |fields[0]|;
      FramedReadsBack(fields[1..]);
      assert b == BigEndian(n) + fields[0] + rest;
      assert b[..4] == BigEndian(n) && b[4..4 + n] == fields[0] && b[4 + n..] == rest;
      BigEndianReadsBack(n);
      assert fields == [fields[0]] + fields[1..];
    }
  }

  /** The bytes read back as six fields: four texts, four bytes of a number, and another text. */
  ghost predicate ReadsAs(b: seq<Byte>, domain: string, purpose: string, appId: string, generation: string, pid: nat, nonce: string) {
    var fields := ReadFields(b);
    && fields.Some? && |fields.value| == 6
    && fields.value[0] == Utf8(domain) && fields.value[1] == Utf8(purpose) && fields.value[2] == Utf8(appId)
    && fields.value[3] == Utf8(generation) && |fields.value[4]| == 4 && FromBigEndian(fields.value[4]) == pid
    && fields.value[5] == Utf8(nonce)
  }

  lemma FieldsReadBack(domain: string, purpose: string, appId: string, generation: string, pid: nat, nonce: string)
    requires pid < FIELD_LIMIT && Framed(BindingFields(domain, purpose, appId, generation, pid, nonce)).Ok?
    ensures ReadsAs(Framed(BindingFields(domain, purpose, appId, generation, pid, nonce)).value, domain, purpose, appId, generation, pid, nonce)
  {
    FramedReadsBack(BindingFields(domain, purpose, appId, generation, pid, nonce));
    BigEndianReadsBack(pid);
  }

  lemma {:induction false} TextLength(s: string)
    ensures ByteLength(s) == 0 <==> s == []
  {
    if s != [] {
      TextLength(s[1..]);
    }
  }

  lemma IdentityExactly(appId: string, generation: string, pid: nat, nonce: string)
    ensures IdentityError(appId, generation, pid, nonce).None?
            <==> OF.AppIdForm(appId) && OF.DigestForm(generation) && pid > 0 && 1 <= ByteLength(nonce) <= 256
  {
    OF.AppIdExactly(appId);
    OF.DigestExactly(generation);
    TextLength(nonce);
  }

  lemma BindingGiven(p: Purpose, appId: string, generation: string, pid: nat, nonce: string)
    requires pid < FIELD_LIMIT
    ensures Binding(p, appId, generation, pid, nonce).Ok? <==> IdentityError(appId, generation, pid, nonce).None?
    ensures Binding(p, appId, generation, pid, nonce).Ok? ==>
              Binding(p, appId, generation, pid, nonce) == Framed(BindingFields(BINDING_DOMAIN, PurposeText(p), appId, generation, pid, nonce))
  {
    FieldsAlwaysFit(p, appId, generation, pid, nonce);
    FramedFails(BindingFields(BINDING_DOMAIN, PurposeText(p), appId, generation, pid, nonce));
  }

  /** A binding is given exactly for a valid APP id, a digest as generation, a process id that is not zero and a nonce of 1
      to 256 bytes; and it reads back as the domain, the purpose, the APP, the generation, the process and the nonce. */
  lemma BindingReads(p: Purpose, appId: string, generation: string, pid: nat, nonce: string)
    requires pid < FIELD_LIMIT
    ensures var r := Binding(p, appId, generation, pid, nonce);
            && (r.Ok? <==> OF.AppIdForm(appId) && OF.DigestForm(generation) && pid > 0 && 1 <= ByteLength(nonce) <= 256)
            && (r.Ok? ==> ReadsAs(r.value, "cowd.app.channel-token/v1", if p == WorkerChannel then "worker-channel" else "core-bridge",
                                  appId, generation, pid, nonce))
  {
    IdentityExactly(appId, generation, pid, nonce);
    BindingGiven(p, appId, generation, pid, nonce);
    if IdentityError(appId, generation, pid, nonce).None? {
      FieldsReadBack(BINDING_DOMAIN, PurposeText(p), appId, generation, pid, nonce);
    }
  }

  lemma {:induction false} FramedFails(fields: seq<seq<Byte>>)
    ensures Framed(fields).Err? ==> Framed(fields) == Err(FieldTooLong)
  {
    if fields != [] {
      FramedFails(fields[1..]);
    }
  }
}
