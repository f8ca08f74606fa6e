/**
 Encryption of the audit log at rest, with key rotation.  The cipher, UTF-8 and the event serializer are
 parameters; `Ideal` states what is taken for granted about them.
 */
module Encryption {
  import opened Wrappers
  import opened AuditModel
  import Hex

  type Bytes = seq<Hex.Byte>
  type Key = k: Bytes | |k| == 32 witness seq(32, _ => 0)
  type Nonce = n: Bytes | |n| == 12 witness seq(12, _ => 0)

  datatype Tools = Tools(encrypt: (Key, Nonce, Bytes) -> Bytes, decrypt: (Key, Nonce, Bytes) -> Option<Bytes>,
                         utf8: string -> Bytes, fromUtf8: Bytes -> Option<string>,
                         show: AuditEvent -> string, parse: string -> Option<AuditEvent>)

  /** Decryption undoes encryption under the same key and fails under any other; text and events survive
      being written and read back; a serialized event is a JSON object. */
  ghost predicate Ideal(w: Tools) {
    && (forall k, n, p :: w.decrypt(k, n, w.encrypt(k, n, p)) == Some(p))
    && (forall k, k', n, p :: k != k' ==> w.decrypt(k', n, w.encrypt(k, n, p)) == None)
    && (forall s :: w.fromUtf8(w.utf8(s)) == Some(s))
    && (forall e :: w.parse(w.show(e)) == Some(e))
    && (forall e :: w.show(e) != [] && w.show(e)[0] == '{')
  }

  datatype Error = NotEncrypted | AlreadyEncrypted | BadFormat | BadNonceHex | BadCiphertextHex | BadNonceLength
                 | BadUtf8 | BadEvent | NoKeyFits | IoError

  datatype Config = Config(currentKey: Key, previousKeys: seq<Key>, enabled: bool) {
    function RotateKey(newKey: Key): Config {
      Config(newKey, previousKeys + [currentKey], enabled)
    }

    function AllKeys(): seq<Key> {
      [currentKey] + previousKeys
    }
  }

  // ---------------------------------------------------------------- one line

  function FirstColon(s: string): (i: nat)
    ensures i <= |s| && (i < |s| ==> s[i] == ':') && ':' !in s[..i]
  {
    if s == [] || s[0] == ':' then 0 else
    var i := 1 + FirstColon(s[1..]);
    assert s[..i] == [s[0]] + s[1..][..i - 1];
    i
  }

  function EncryptLine(w: Tools, key: Key, nonce: Nonce, text: string): string {
    Hex.Encode(nonce) + ":" + Hex.Encode(w.encrypt(key, nonce, w.utf8(text)))
  }

  /** The first key that opens the ciphertext decides. */
  function TryKeys(w: Tools, keys: seq<Key>, nonce: Nonce, ciphertext: Bytes): Result<AuditEvent, Error> {
    if keys == [] then Err(NoKeyFits) else
    match w.decrypt(keys[0], nonce, ciphertext)
    case None => TryKeys(w, keys[1..], nonce, ciphertext)
    case Some(plaintext) =>
      match w.fromUtf8(plaintext)
      case None => Err(BadUtf8)
      case Some(json) =>
        match w.parse(json)
        case None => Err(BadEvent)
        case Some(e) => Ok(e)
  }

  function DecryptLine(w: Tools, keys: seq<Key>, line: string): Result<AuditEvent, Error> {
    var i := FirstColon(line);
    if i == |line| then Err(BadFormat) else
    var nonce, ciphertext := Hex.Decode(line[..i]), Hex.Decode(line[i + 1..]);
    if nonce.None? then Err(BadNonceHex)
    else if ciphertext.None? then Err(BadCiphertextHex)
    else if |nonce.value| != 12 then Err(BadNonceLength)
    else TryKeys(w, keys, nonce.value, ciphertext.value)
  }

  function Parsed(w: Tools, text: string): Result<AuditEvent, Error> {
    match w.parse(text)
    case None => Err(BadEvent)
    case Some(e) => Ok(e)
  }

  lemma {:induction false} RightKeyIsFound(w: Tools, keys: seq<Key>, key: Key, nonce: Nonce, text: string)
    requires Ideal(w) && key in keys
    ensures TryKeys(w, keys, nonce, w.encrypt(key, nonce, w.utf8(text))) == Parsed(w, text)
    decreases |keys|
  {
    if keys[0] != key {
      RightKeyIsFound(w, keys[1..], key, nonce, text);
    }
  }

  lemma {:induction false} SplitsAtFirstColon(left: string, right: string)
    requires ':' !in left
    ensures FirstColon(left + ":" + right) == |left|
    decreases |left|
  {
    var line := left + ":" + right;
    if left == [] {
      assert line[0] == ':';
    } else {
      assert line[0] == left[0] && line[1..] == left[1..] + ":" + right;
      SplitsAtFirstColon(left[1..], right);
    }
  }

  /** Splitting at the first colon and decoding undoes the encoder, and only the right key opens the line. */
  lemma DecryptUndoesEncrypt(w: Tools, keys: seq<Key>, key: Key, nonce: Nonce, text: string)
    requires Ideal(w) && key in keys
    ensures DecryptLine(w, keys, EncryptLine(w, key, nonce, text)) == Parsed(w, text)
    ensures EncryptLine(w, key, nonce, text) != []
  {
    var ciphertext := w.encrypt(key, nonce, w.utf8(text));
    var left, right := Hex.Encode(nonce), Hex.Encode(ciphertext);
    var line := left + ":" + right;
    Hex.DecodeEncode(nonce);
    Hex.DecodeEncode(ciphertext);
    SplitsAtFirstColon(left, right);
    assert line[..|left|] == left && line[|left| + 1..] == right;
    RightKeyIsFound(w, keys, key, nonce, text);
  }

  // ---------------------------------------------------------------- the whole file

  /** Reads every non-empty line with `read`, up to the first error. */
  function ReadAll(read: string -> Result<AuditEvent, Error>, lines: seq<string>): Result<seq<AuditEvent>, Error> {
    if lines == [] then Ok([]) else
    var front, last := ReadAll(read, lines[..|lines| - 1]), lines[|lines| - 1];
    if front.Err? || last == [] then front else
    match read(last)
    case Err(e) => Err(e)
    case Ok(event) => Ok(front.value + [event])
  }

  function DecryptAll(w: Tools, keys: seq<Key>, lines: seq<string>): Result<seq<AuditEvent>, Error> {
    ReadAll(line => DecryptLine(w, keys, line), lines)
  }

  /** What the log says before it is encrypted. */
  function ParseAll(w: Tools, lines: seq<string>): Result<seq<AuditEvent>, Error> {
    ReadAll(line => Parsed(w, line), lines)
  }

  function NonEmpty(lines: seq<string>): seq<string> {
    if lines == [] then [] else
    var front, last := NonEmpty(lines[..|lines| - 1]), lines[|lines| - 1];
    if last == [] then front else front + [last]
  }

  /** One encrypted line per text; `nonces(i)` is the random nonce drawn for the i-th. */
  function EncryptAll(w: Tools, key: Key, nonces: nat -> Nonce, texts: seq<string>): seq<string> {
    seq(|texts|, i requires 0 <= i < |texts| => EncryptLine(w, key, nonces(i), texts[i]))
  }

  function PrintAll(w: Tools, events: seq<AuditEvent>): seq<string> {
    seq(|events|, i requires 0 <= i < |events| => w.show(events[i]))
  }

  lemma {:induction false} ReadAllOfNonEmpty(read: string -> Result<AuditEvent, Error>, lines: seq<string>)
    ensures ReadAll(read, NonEmpty(lines)) == ReadAll(read, lines)
    decreases |lines|
  {
    if lines != [] {
      var front, last := lines[..|lines| - 1], lines[|lines| - 1];
      ReadAllOfNonEmpty(read, front);
      if last != [] {
        var kept := NonEmpty(front) + [last];
        assert kept[..|kept| - 1] == NonEmpty(front);
      }
    }
  }

  lemma {:induction false} NonEmptyHasNoEmpty(lines: seq<string>)
    ensures forall i :: 0 <= i < |NonEmpty(lines)| ==> NonEmpty(lines)[i] != []
    decreases |lines|
  {
    if lines != [] {
      NonEmptyHasNoEmpty(lines[..|lines| - 1]);
    }
  }

  lemma {:induction false} DecryptAllOfEncrypted(w: Tools, keys: seq<Key>, key: Key, nonces: nat -> Nonce,
                                                 texts: seq<string>)
    requires Ideal(w) && key in keys && forall i :: 0 <= i < |texts| ==> texts[i] != []
    ensures DecryptAll(w, keys, EncryptAll(w, key, nonces, texts)) == ParseAll(w, texts)
    decreases |texts|
  {
    if texts != [] {
      var n := |texts| - 1;
      var lines := EncryptAll(w, key, nonces, texts);
      assert lines[..n] == EncryptAll(w, key, nonces, texts[..n]);
      DecryptAllOfEncrypted(w, keys, key, nonces, texts[..n]);
      DecryptUndoesEncrypt(w, keys, key, nonces(n), texts[n]);
    }
  }

  lemma {:induction false} ParseAllOfPrinted(w: Tools, events: seq<AuditEvent>)
    requires Ideal(w)
    ensures ParseAll(w, PrintAll(w, events)) == Ok(events)
    decreases |events|
  {
    if events != [] {
      var n := |events| - 1;
      var texts := PrintAll(w, events);
      assert texts[..n] == PrintAll(w, events[..n]);
      ParseAllOfPrinted(w, events[..n]);
      assert events == events[..n] + [events[n]];
    }
  }

  // ---------------------------------------------------------------- the log

  class EncryptedLog {
    const w: Tools
    var lines: seq<string>
    var config: Option<Config>

    constructor (w: Tools)
      ensures this.w == w && lines == [] && config == None
    {
      this.w := w;
      lines, config := [], None;
    }

    ghost function View(): Log
      reads this
    {
      Log(lines, config)
    }

    /** `io` says whether writing and renaming the temporary file succeed. */
    method EncryptAtRest(key: Key, nonces: nat -> Nonce, io: bool) returns (r: Result<nat, Error>)
      modifies this
      ensures (View(), r) == Encrypted(w, old(View()), key, nonces, io)
    {
      if config.Some? && config.value.enabled {
        return Err(AlreadyEncrypted);
      }
      var texts: seq<string> := [];
      for i := 0 to |lines|
        invariant texts == NonEmpty(lines[..i])
      {
        assert lines[..i + 1][..i] == lines[..i];
        if lines[i] != [] {
          texts := texts + [lines[i]];
        }
      }
      assert lines[..|lines|] == lines;
      if !io {
        return Err(IoError);
      }
      lines := WriteEncrypted(w, key, nonces, texts);
      config := Some(Config(key, [], true));
      return Ok(|texts|);
    }

    method DecryptOnRead() returns (r: Result<seq<AuditEvent>, Error>)
      ensures r == Decrypted(w, View())
    {
      if config.None? {
        return Err(NotEncrypted);
      }
      var keys := config.value.AllKeys();
      var events: seq<AuditEvent> := [];
      for i := 0 to |lines|
        invariant DecryptAll(w, keys, lines[..i]) == Ok(events)
      {
        assert lines[..i + 1][..i] == lines[..i];
        if lines[i] == [] {
          continue;
        }
        var event := DecryptLine(w, keys, lines[i]);
        if event.Err? {
          ErrorIsFinal(line => DecryptLine(w, keys, line), lines, i + 1);
          return Err(event.error);
        }
        events := events + [event.value];
      }
      assert lines[..|lines|] == lines;
      return Ok(events);
    }

    method RotateEncryptionKey(newKey: Key, nonces: nat -> Nonce, io: bool) returns (r: Result<nat, Error>)
      modifies this
      ensures (View(), r) == Rotated(w, old(View()), newKey, nonces, io)
    {
      if config.None? {
        return Err(NotEncrypted);
      }
      var events := DecryptOnRead();
      if events.Err? {
        return Err(events.error);
      }
      if !io {
        return Err(IoError);
      }
      lines := WriteEncrypted(w, newKey, nonces, PrintAll(w, events.value));
      config := Some(config.value.RotateKey(newKey));
      return Ok(|events.value|);
    }
  }

  method WriteEncrypted(w: Tools, key: Key, nonces: nat -> Nonce, texts: seq<string>) returns (lines: seq<string>)
    ensures lines == EncryptAll(w, key, nonces, texts)
  {
    lines := [];
    for i := 0 to |texts|
      invariant lines == EncryptAll(w, key, nonces, texts[..i])
    {
      lines := lines + [EncryptLine(w, key, nonces(i), texts[i])];
    }
    assert texts[..|texts|] == texts;
  }

  lemma {:induction false} ErrorIsFinal(read: string -> Result<AuditEvent, Error>, lines: seq<string>, k: nat)
    requires k <= |lines| && ReadAll(read, lines[..k]).Err?
    ensures ReadAll(read, lines) == ReadAll(read, lines[..k])
    decreases |lines|
  {
    if k == |lines| {
      assert lines[..k] == lines;
    } else {
      var front := lines[..|lines| - 1];
      assert front[..k] == lines[..k];
      ErrorIsFinal(read, front, k);
    }
  }

  // ---------------------------------------------------------------- runs

  datatype Log = Log(lines: seq<string>, config: Option<Config>)

  function Encrypted(w: Tools, log: Log, key: Key, nonces: nat -> Nonce, io: bool): (Log, Result<nat, Error>) {
    if log.config.Some? && log.config.value.enabled then (log, Err(AlreadyEncrypted))
    else if !io then (log, Err(IoError))
    else
      var texts := NonEmpty(log.lines);
      (Log(EncryptAll(w, key, nonces, texts), Some(Config(key, [], true))), Ok(|texts|))
  }

  function Decrypted(w: Tools, log: Log): Result<seq<AuditEvent>, Error> {
    if log.config.None? then Err(NotEncrypted) else DecryptAll(w, log.config.value.AllKeys(), log.lines)
  }

  function Rotated(w: Tools, log: Log, newKey: Key, nonces: nat -> Nonce, io: bool): (Log, Result<nat, Error>) {
    var events := Decrypted(w, log);
    if events.Err? then (log, Err(events.error))
    else if !io then (log, Err(IoError))
    else
      (Log(EncryptAll(w, newKey, nonces, PrintAll(w, events.value)), Some(log.config.value.RotateKey(newKey))),
        Ok(|events.value|))
  }

  datatype Rotation = Rotation(newKey: Key, nonces: nat -> Nonce, io: bool)

  function RotateAll(w: Tools, log: Log, rotations: seq<Rotation>): Log {
    if rotations == [] then log else
    var r := rotations[|rotations| - 1];
    Rotated(w, RotateAll(w, log, rotations[..|rotations| - 1]), r.newKey, r.nonces, r.io).0
  }

  /** Encrypting changes where the events are, not what they are: afterwards reading decrypts to exactly what
      parsing the plain file gave, errors included. */
  lemma EncryptingPreserves(w: Tools, log: Log, key: Key, nonces: nat -> Nonce)
    requires Ideal(w) && log.config == None
    ensures var (log', _) := Encrypted(w, log, key, nonces, true); Decrypted(w, log') == ParseAll(w, log.lines)
  {
    var texts := NonEmpty(log.lines);
    NonEmptyHasNoEmpty(log.lines);
    DecryptAllOfEncrypted(w, [key], key, nonces, texts);
    ReadAllOfNonEmpty(line => Parsed(w, line), log.lines);
    assert Config(key, [], true).AllKeys() == [key];
  }

  lemma RotatingPreserves(w: Tools, log: Log, newKey: Key, nonces: nat -> Nonce, io: bool)
    requires Ideal(w) && log.config.Some?
    ensures var (log', _) := Rotated(w, log, newKey, nonces, io);
      Decrypted(w, log') == Decrypted(w, log) && log'.config.Some?
  {
    var events := Decrypted(w, log);
    if events.Ok? && io {
      var config := log.config.value.RotateKey(newKey);
      var texts := PrintAll(w, events.value);
      assert newKey in config.AllKeys();
      DecryptAllOfEncrypted(w, config.AllKeys(), newKey, nonces, texts);
      ParseAllOfPrinted(w, events.value);
    }
  }

  lemma {:induction false} RotationsPreserve(w: Tools, log: Log, rotations: seq<Rotation>)
    requires Ideal(w) && log.config.Some?
    ensures var log' := RotateAll(w, log, rotations); log'.config.Some? && Decrypted(w, log') == Decrypted(w, log)
    decreases |rotations|
  {
    if rotations != [] {
      var before, r := rotations[..|rotations| - 1], rotations[|rotations| - 1];
      RotationsPreserve(w, log, before);
      RotatingPreserves(w, RotateAll(w, log, before), r.newKey, r.nonces, r.io);
    }
  }

  /** The round trip: encrypt a log, rotate the key any number of times, successfully or not, with any keys and
      nonces, and reading gives back exactly the original events in order. */
  lemma KeyRotationRoundTrip(w: Tools, log: Log, key: Key, nonces: nat -> Nonce, rotations: seq<Rotation>,
                             events: seq<AuditEvent>)
    requires Ideal(w) && log.config == None && ParseAll(w, log.lines) == Ok(events)
    ensures Decrypted(w, RotateAll(w, Encrypted(w, log, key, nonces, true).0, rotations)) == Ok(events)
  {
    EncryptingPreserves(w, log, key, nonces);
    RotationsPreserve(w, Encrypted(w, log, key, nonces, true).0, rotations);
  }

  /** What the log's own `write` appends cannot be read back from an encrypted log: from then on reading and
      rotating fail. */
  lemma PlainWriteBreaksReading(w: Tools, log: Log, e: AuditEvent, later: seq<string>)
    requires Ideal(w) && log.config.Some?
    ensures Decrypted(w, Log(log.lines + [w.show(e)] + later, log.config)).Err?
  {
    var keys, text := log.config.value.AllKeys(), w.show(e);
    var lines := log.lines + [text] + later;
    var upTo := log.lines + [text];
    PlainLineIsRejected(w, keys, text);
    assert upTo[..|upTo| - 1] == log.lines;
    assert lines[..|upTo|] == upTo;
    ErrorIsFinal(line => DecryptLine(w, keys, line), lines, |upTo|);
  }

  // ---------------------------------------------------------------- which key opens what

  /** The line opens under `key`, to `e`, and under no other key. */
  ghost predicate OpensOnlyUnder(w: Tools, key: Key, line: string, e: Result<AuditEvent, Error>) {
    DecryptLine(w, [key], line) == e && forall k :: k != key ==> DecryptLine(w, [k], line) == Err(NoKeyFits)
  }

  /** The nonce travels in clear before the first colon. */
  predicate CarriesNonce(line: string, nonce: Nonce) {
    Hex.Decode(line[..FirstColon(line)]) == Some(nonce)
  }

  lemma EncryptedLineOpens(w: Tools, key: Key, nonce: Nonce, text: string)
    requires Ideal(w)
    ensures OpensOnlyUnder(w, key, EncryptLine(w, key, nonce, text), Parsed(w, text))
    ensures CarriesNonce(EncryptLine(w, key, nonce, text), nonce)
  {
    var ciphertext := w.encrypt(key, nonce, w.utf8(text));
    var left, right := Hex.Encode(nonce), Hex.Encode(ciphertext);
    var line := left + ":" + right;
    Hex.DecodeEncode(nonce);
    Hex.DecodeEncode(ciphertext);
    SplitsAtFirstColon(left, right);
    assert line[..|left|] == left && line[|left| + 1..] == right;
    DecryptUndoesEncrypt(w, [key], key, nonce, text);
    forall k: Key | k != key
      ensures DecryptLine(w, [k], line) == Err(NoKeyFits)
    {
      assert w.decrypt(k, nonce, ciphertext) == None;
      assert TryKeys(w, [k], nonce, ciphertext) == TryKeys(w, [], nonce, ciphertext);
    }
  }

  /** Encrypting at rest leaves one line per non-empty line, each of which opens under the given key and no other, and
      reports their number. */
  lemma EncryptedUnderKey(w: Tools, log: Log, key: Key, nonces: nat -> Nonce)
    requires Ideal(w) && log.config == None
    ensures var (log', r) := Encrypted(w, log, key, nonces, true);
      var texts := NonEmpty(log.lines);
      && r == Ok(|texts|) && |log'.lines| == |texts| && log'.config.Some? && log'.config.value.AllKeys() == [key]
      && forall i :: 0 <= i < |texts| ==>
           OpensOnlyUnder(w, key, log'.lines[i], Parsed(w, texts[i])) && CarriesNonce(log'.lines[i], nonces(i))
  {
    var texts := NonEmpty(log.lines);
    forall i | 0 <= i < |texts|
      ensures OpensOnlyUnder(w, key, EncryptLine(w, key, nonces(i), texts[i]), Parsed(w, texts[i]))
      ensures CarriesNonce(EncryptLine(w, key, nonces(i), texts[i]), nonces(i))
    {
      EncryptedLineOpens(w, key, nonces(i), texts[i]);
    }
  }

  /** An encrypted log is not encrypted again: the attempt fails and changes nothing. */
  lemma EncryptingTwiceIsRefused(w: Tools, log: Log, key: Key, nonces: nat -> Nonce, key': Key, nonces': nat -> Nonce,
                                 io: bool)
    requires log.config == None
    ensures var once := Encrypted(w, log, key, nonces, true).0;
      Encrypted(w, once, key', nonces', io) == (once, Err(AlreadyEncrypted))
    ensures Encrypted(w, log, key, nonces, false) == (log, Err(IoError))
  {
  }

  /** A rotation re-keys: it succeeds exactly if the log can be read and written, and afterwards the i-th line opens to
      the i-th event under the new key and under no other, old keys included. */
  lemma RotatedUnderKey(w: Tools, log: Log, newKey: Key, nonces: nat -> Nonce, io: bool)
    requires Ideal(w)
    ensures var (log', r) := Rotated(w, log, newKey, nonces, io);
      && (r.Ok? <==> Decrypted(w, log).Ok? && io)
      && (r.Err? ==> log' == log)
      && (r.Ok? ==>
            var events := Decrypted(w, log).value;
            && r.value == |events| == |log'.lines| && log'.config.Some? && log'.config.value.currentKey == newKey
            && forall i :: 0 <= i < |events| ==>
                 OpensOnlyUnder(w, newKey, log'.lines[i], Ok(events[i])) && CarriesNonce(log'.lines[i], nonces(i)))
  {
    if Decrypted(w, log).Ok? {
      var events := Decrypted(w, log).value;
      forall i | 0 <= i < |events|
        ensures OpensOnlyUnder(w, newKey, EncryptLine(w, newKey, nonces(i), w.show(events[i])), Ok(events[i]))
        ensures CarriesNonce(EncryptLine(w, newKey, nonces(i), w.show(events[i])), nonces(i))
      {
        EncryptedLineOpens(w, newKey, nonces(i), w.show(events[i]));
      }
    }
  }

  lemma {:induction false} KeysAreRemembered(w: Tools, log: Log, rotations: seq<Rotation>, key: Key)
    requires log.config.Some? && key in log.config.value.AllKeys()
    ensures var log' := RotateAll(w, log, rotations); log'.config.Some? && key in log'.config.value.AllKeys()
    decreases |rotations|
  {
    if rotations != [] {
      KeysAreRemembered(w, log, rotations[..|rotations| - 1], key);
    }
  }

  /** Old keys are kept, so a copy of the file made before any number of rotations is still readable after them. */
  lemma BackupStaysReadable(w: Tools, log: Log, rotations: seq<Rotation>, key: Key, nonces: nat -> Nonce,
                            texts: seq<string>)
    requires Ideal(w) && log.config.Some? && key in log.config.value.AllKeys()
    requires forall i :: 0 <= i < |texts| ==> texts[i] != []
    ensures var now := RotateAll(w, log, rotations).config;
      Decrypted(w, Log(EncryptAll(w, key, nonces, texts), now)) == ParseAll(w, texts)
  {
    KeysAreRemembered(w, log, rotations, key);
    DecryptAllOfEncrypted(w, RotateAll(w, log, rotations).config.value.AllKeys(), key, nonces, texts);
  }

  // ---------------------------------------------------------------- plain writes

  datatype Op = Rotate(rotation: Rotation) | Write(event: AuditEvent)

  function Run(w: Tools, log: Log, ops: seq<Op>): Log {
    if ops == [] then log else
    var before := Run(w, log, ops[..|ops| - 1]);
    match ops[|ops| - 1]
    case Rotate(r) => Rotated(w, before, r.newKey, r.nonces, r.io).0
    case Write(e) => Log(before.lines + [w.show(e)], before.config)
  }

  predicate OnlyRotates(ops: seq<Op>) {
    forall i :: 0 <= i < |ops| ==> ops[i].Rotate?
  }

  lemma {:induction false} RunReadsIff(w: Tools, log: Log, ops: seq<Op>)
    requires Ideal(w) && log.config.Some? && Decrypted(w, log).Ok?
    ensures var log' := Run(w, log, ops);
      && log'.config.Some?
      && (OnlyRotates(ops) ==> Decrypted(w, log') == Decrypted(w, log))
      && (!OnlyRotates(ops) ==> Decrypted(w, log').Err?)
    decreases |ops|
  {
    if ops != [] {
      var front, last := ops[..|ops| - 1], ops[|ops| - 1];
      assert ops == front + [last];
      RunReadsIff(w, log, front);
      var before := Run(w, log, front);
      match last
      case Rotate(r) => RotatingPreserves(w, before, r.newKey, r.nonces, r.io);
      case Write(e) =>
        PlainWriteBreaksReading(w, before, e, []);
        assert before.lines + [w.show(e)] + [] == before.lines + [w.show(e)];
    }
  }

  /** The exact condition of the round trip: after any mixture of rotations and plain writes the original events are
      read back if and only if there was no plain write, and otherwise reading fails. */
  lemma RoundTripIff(w: Tools, log: Log, key: Key, nonces: nat -> Nonce, ops: seq<Op>, events: seq<AuditEvent>)
    requires Ideal(w) && log.config == None && ParseAll(w, log.lines) == Ok(events)
    ensures var r := Decrypted(w, Run(w, Encrypted(w, log, key, nonces, true).0, ops));
      (r == Ok(events) <==> OnlyRotates(ops)) && (r.Err? <==> !OnlyRotates(ops))
  {
    EncryptingPreserves(w, log, key, nonces);
    RunReadsIff(w, Encrypted(w, log, key, nonces, true).0, ops);
  }

  lemma PlainLineIsRejected(w: Tools, keys: seq<Key>, text: string)
    requires text != [] && text[0] == '{'
    ensures DecryptLine(w, keys, text).Err?
  {
    var i := FirstColon(text);
    if i < |text| {
      var nonce := text[..i];
      assert nonce[0] == '{' && Hex.DigitValue('{') == None;
    }
  }
}
