/** The encrypted secret store: its listing, its file format and its operations (src/security/secret_store.cpp). */
module SecretStore {
  import opened Common
  import opened Text
  import Base64

  type Secrets = map<string, string>

  datatype Error =
    | UnsupportedVersion
    | Truncated
    | InvalidField(line: string)
    | UnexpectedField(key: string, expected: string)
    | InvalidBase64
    | CipherFailure
    | MalformedEntry(line: string)

  // Reading lines.

  /** What repeated `getline` yields: a newline ends a line, and nothing follows a final newline. */
  function Lines(s: string): (lines: seq<string>)
    decreases |s|
  {
    if |s| == 0 then [] else [Before(s, '\n')] + Lines(AfterLine(s))
  }

  /** What is left in the stream after one `getline`. */
  function AfterLine(s: string): (rest: string)
    requires |s| > 0
    ensures |rest| < |s|
  {
    var i := Find(s, '\n');
    if i == |s| then "" else s[i + 1..]
  }

  lemma LinesOfLine(line: string, rest: string)
    requires Free(line, '\n')
    ensures Lines(line + ['\n'] + rest) == [line] + Lines(rest)
  {
    FindSeparator(line, '\n', rest);
  }

  lemma LinesOfLast(line: string)
    requires Free(line, '\n') && |line| > 0
    ensures Lines(line) == [line]
  {
    BeforeNothing(line, '\n');
    FindIs(line, '\n', |line|);
  }

  lemma {:induction false} LinesAreFree(s: string)
    ensures forall line <- Lines(s) :: Free(line, '\n')
    decreases |s|
  {
    if |s| > 0 {
      LinesAreFree(AfterLine(s));
    }
  }

  /** Lines joined by newlines are read back, unless the last one is empty. */
  lemma {:induction false} LinesOfJoin(parts: seq<string>)
    requires forall p <- parts :: Free(p, '\n') && |p| > 0
    ensures Lines(Join(parts, '\n')) == parts
  {
    if |parts| == 1 {
      LinesOfLast(parts[0]);
    } else if |parts| > 1 {
      LinesOfJoin(parts[1..]);
      LinesOfLine(parts[0], Join(parts[1..], '\n'));
    }
  }

  // The key=value listing.

  /** An order in which the unordered map can be walked. */
  ghost predicate IsOrder(keys: seq<string>, m: Secrets) {
    && (forall i, j :: 0 <= i < j < |keys| ==> keys[i] != keys[j])
    && (forall k :: k in keys <==> k in m)
  }

  function Entry(key: string, value: string): string {
    key + ['='] + value
  }

  function Entries(keys: seq<string>, m: Secrets): (es: seq<string>)
    requires forall k <- keys :: k in m
    ensures |es| == |keys|
  {
    seq(|keys|, i requires 0 <= i < |keys| => Entry(keys[i], m[keys[i]]))
  }

  function Listing(keys: seq<string>, m: Secrets): string
    requires forall k <- keys :: k in m
  {
    Join(Entries(keys, m), '\n')
  }

  /** The text lists the map in one of the orders in which it can be walked. */
  ghost predicate IsListing(text: string, m: Secrets) {
    exists order :: IsOrder(order, m) && text == Listing(order, m)
  }

  method Serialize(payload: Secrets) returns (text: string)
    ensures IsListing(text, payload)
  {
    text := "";
    ghost var order: seq<string> := [];
    var remaining := payload.Keys;
    while remaining != {}
      invariant remaining <= payload.Keys
      invariant forall i, j :: 0 <= i < j < |order| ==> order[i] != order[j]
      invariant forall k :: k in order <==> k in payload && k !in remaining
      invariant text == Listing(order, payload) + if |order| > 0 && remaining != {} then "\n" else ""
    {
      var key :| key in remaining;
      ListingSnoc(order, payload, key);
      text := text + key + "=" + payload[key];
      order := order + [key];
      remaining := remaining - {key};
      if remaining != {} {
        text := text + "\n";
      }
    }
    assert IsOrder(order, payload);
  }

  lemma ListingSnoc(order: seq<string>, m: Secrets, key: string)
    requires (forall k <- order :: k in m) && key in m
    ensures forall k <- order + [key] :: k in m
    ensures Listing(order + [key], m)
         == Listing(order, m) + (if |order| > 0 then "\n" else "") + key + "=" + m[key]
  {
    assert Entries(order + [key], m) == Entries(order, m) + [Entry(key, m[key])];
    JoinSnoc(Entries(order, m), Entry(key, m[key]), '\n');
  }

  /** One line of a listing, entered into the map; an entry already there stays. */
  function Emplace(m: Secrets, key: string, value: string): Secrets {
    if key in m then m else m[key := value]
  }

  /** The map after one line that is empty or an entry. */
  function Entered(m: Secrets, line: string): Secrets
    requires |line| == 0 || Find(line, '=') < |line|
  {
    if |line| == 0 then m else Emplace(m, line[..Find(line, '=')], line[Find(line, '=') + 1..])
  }

  function ParseLines(lines: seq<string>, m: Secrets): (r: Result<Secrets, Error>) {
    if |lines| == 0 then Ok(m)
    else if |lines[0]| == 0 then ParseLines(lines[1..], m)
    else if Find(lines[0], '=') == |lines[0]| then Err(MalformedEntry(lines[0]))
    else
      ParseLines(lines[1..], Entered(m, lines[0]))
  }

  function Deserialized(s: string): Result<Secrets, Error> {
    ParseLines(Lines(s), map[])
  }

  method Deserialize(payload: string) returns (r: Result<Secrets, Error>)
    ensures r == Deserialized(payload)
  {
    var result: Secrets := map[];
    var stream := payload;
    while |stream| > 0
      invariant ParseLines(Lines(stream), result) == Deserialized(payload)
      decreases |stream|
    {
      var line := Before(stream, '\n');
      assert Lines(stream)[0] == line && Lines(stream)[1..] == Lines(AfterLine(stream));
      stream := AfterLine(stream);
      if |line| == 0 {
        continue;
      }
      var pos := Find(line, '=');
      if pos == |line| {
        return Err(MalformedEntry(line));
      }
      result := Emplace(result, line[..pos], line[pos + 1..]);
    }
    return Ok(result);
  }

  /** The maps the listing can hold: no '=' in keys, no newline anywhere. */
  predicate Storable(m: Secrets) {
    forall k <- m :: Free(k, '=') && Free(k, '\n') && Free(m[k], '\n')
  }

  lemma {:induction false} ParseEntries(keys: seq<string>, m: Secrets, acc: Secrets)
    requires forall k <- keys :: k in m && Free(k, '=') && k !in acc
    requires forall i, j :: 0 <= i < j < |keys| ==> keys[i] != keys[j]
    ensures ParseLines(Entries(keys, m), acc) == Ok(acc + Listed(keys, m))
  {
    if |keys| == 0 {
      assert acc + Listed(keys, m) == acc;
    } else {
      var k, rest := keys[0], keys[1..];
      ParseEntry(Entries(keys, m), k, m[k], acc);
      assert Entries(keys, m)[1..] == Entries(rest, m);
      ParseEntries(rest, m, acc[k := m[k]]);
      ListedStep(keys, m, acc);
    }
  }

  function Listed(keys: seq<string>, m: Secrets): (r: Secrets)
    requires forall k <- keys :: k in m
    ensures forall k :: k in r <==> k in keys
    ensures forall k <- r :: r[k] == m[k]
  {
    map k | k in keys :: m[k]
  }

  lemma ListedStep(keys: seq<string>, m: Secrets, acc: Secrets)
    requires |keys| > 0 && forall k <- keys :: k in m
    requires keys[0] !in acc
    ensures acc[keys[0] := m[keys[0]]] + Listed(keys[1..], m) == acc + Listed(keys, m)
  {
    assert forall k :: k in keys <==> k == keys[0] || k in keys[1..];
  }

  lemma ParseEntry(lines: seq<string>, key: string, value: string, m: Secrets)
    requires |lines| > 0 && lines[0] == Entry(key, value) && Free(key, '=')
    ensures ParseLines(lines, m) == ParseLines(lines[1..], Emplace(m, key, value))
  {
    FindSeparator(key, '=', value);
  }

  /** Line `i` is an entry for the key. */
  predicate KeyAt(lines: seq<string>, i: nat, key: string) {
    i < |lines| && key + ['='] <= lines[i] && Free(key, '=')
  }

  /** The line is an entry for the text in front of its first '=', and for no other key. */
  lemma EntryOf(line: string, key: string)
    ensures key + ['='] <= line && Free(key, '=')
       <==> Find(line, '=') < |line| && key == line[..Find(line, '=')]
  {
    if key + ['='] <= line && Free(key, '=') {
      FindIs(line, '=', |key|);
    }
  }

  lemma EntryAtNext(lines: seq<string>, key: string)
    requires |lines| > 0
    ensures forall i: nat :: KeyAt(lines[1..], i, key) <==> KeyAt(lines, i + 1, key)
  {
  }

  /** Parsing fails exactly when some line that is not empty has no '='; the first such line is reported. */
  lemma {:induction false} ParseRefuses(lines: seq<string>, m: Secrets, i: nat)
    requires i < |lines| && |lines[i]| > 0 && Free(lines[i], '=')
    requires forall j :: 0 <= j < i ==> |lines[j]| == 0 || !Free(lines[j], '=')
    ensures ParseLines(lines, m) == Err(MalformedEntry(lines[i]))
    decreases i
  {
    if i > 0 {
      ParseRefuses(lines[1..], Entered(m, lines[0]), i - 1);
    }
  }

  lemma {:induction false} ParseAccepts(lines: seq<string>, m: Secrets)
    requires forall i :: 0 <= i < |lines| ==> |lines[i]| == 0 || !Free(lines[i], '=')
    ensures ParseLines(lines, m).Ok?
  {
    if |lines| > 0 {
      ParseAccepts(lines[1..], Entered(m, lines[0]));
    }
  }

  /** A key that is there before parsing keeps its value. */
  lemma {:induction false} ParseKeeps(lines: seq<string>, m: Secrets, key: string)
    requires ParseLines(lines, m).Ok? && key in m
    ensures key in ParseLines(lines, m).value && ParseLines(lines, m).value[key] == m[key]
  {
    if |lines| > 0 {
      ParseKeeps(lines[1..], Entered(m, lines[0]), key);
    }
  }

  /** A key that has no entry is not added. */
  lemma {:induction false} ParseAddsNothing(lines: seq<string>, m: Secrets, key: string)
    requires ParseLines(lines, m).Ok? && key !in m && forall i: nat :: !KeyAt(lines, i, key)
    ensures key !in ParseLines(lines, m).value
  {
    if |lines| > 0 {
      EntryAtNext(lines, key);
      EntryOf(lines[0], key);
      assert !KeyAt(lines, 0, key);
      ParseAddsNothing(lines[1..], Entered(m, lines[0]), key);
    }
  }

  /** Of several entries for a key the first one counts. */
  lemma {:induction false} ParseTakesFirst(lines: seq<string>, m: Secrets, key: string, i: nat)
    requires ParseLines(lines, m).Ok? && key !in m && KeyAt(lines, i, key)
    requires forall j: nat :: j < i ==> !KeyAt(lines, j, key)
    ensures key in ParseLines(lines, m).value
    ensures ParseLines(lines, m).value[key] == lines[i][|key| + 1..]
    decreases i
  {
    var next := Entered(m, lines[0]);
    EntryOf(lines[0], key);
    EntryAtNext(lines, key);
    if i == 0 {
      ParseKeeps(lines[1..], next, key);
    } else {
      assert !KeyAt(lines, 0, key);
      ParseTakesFirst(lines[1..], next, key, i - 1);
    }
  }

  /**
   What parsing a listing gives: it is refused exactly when a line that is not empty has no '='; otherwise the
   keys are those that have an entry, each with what follows the '=' of its first entry.
   */
  lemma DeserializedMeans(payload: string)
    ensures Deserialized(payload).Ok? <==> forall line <- Lines(payload) :: |line| == 0 || !Free(line, '=')
    ensures Deserialized(payload).Ok? ==> forall key ::
              key in Deserialized(payload).value <==> exists i: nat :: KeyAt(Lines(payload), i, key)
    ensures Deserialized(payload).Ok? ==> forall key, i: nat ::
              KeyAt(Lines(payload), i, key) && (forall j: nat :: j < i ==> !KeyAt(Lines(payload), j, key)) ==>
                key in Deserialized(payload).value
                && Deserialized(payload).value[key] == Lines(payload)[i][|key| + 1..]
  {
    var lines := Lines(payload);
    if i :| 0 <= i < |lines| && |lines[i]| > 0 && Free(lines[i], '=') {
      var first := FirstMalformed(lines, i);
      ParseRefuses(lines, map[], first);
    } else {
      ParseAccepts(lines, map[]);
      forall key, i: nat | KeyAt(lines, i, key) && forall j: nat :: j < i ==> !KeyAt(lines, j, key)
        ensures key in Deserialized(payload).value && Deserialized(payload).value[key] == lines[i][|key| + 1..]
      {
        ParseTakesFirst(lines, map[], key, i);
      }
      forall key ensures key in Deserialized(payload).value <==> exists i: nat :: KeyAt(lines, i, key) {
        if i: nat :| KeyAt(lines, i, key) {
          var first := FirstEntry(lines, i, key);
          ParseTakesFirst(lines, map[], key, first);
        } else {
          ParseAddsNothing(lines, map[], key);
        }
      }
    }
  }

  lemma FirstMalformed(lines: seq<string>, i: nat) returns (first: nat)
    requires i < |lines| && |lines[i]| > 0 && Free(lines[i], '=')
    ensures first <= i && |lines[first]| > 0 && Free(lines[first], '=')
    ensures forall j :: 0 <= j < first ==> |lines[j]| == 0 || !Free(lines[j], '=')
  {
    if j :| 0 <= j < i && |lines[j]| > 0 && Free(lines[j], '=') {
      first := FirstMalformed(lines, j);
    } else {
      first := i;
    }
  }

  lemma FirstEntry(lines: seq<string>, i: nat, key: string) returns (first: nat)
    requires KeyAt(lines, i, key)
    ensures KeyAt(lines, first, key) && forall j: nat :: j < first ==> !KeyAt(lines, j, key)
    decreases i
  {
    if j: nat :| j < i && KeyAt(lines, j, key) {
      first := FirstEntry(lines, j, key);
    } else {
      first := i;
    }
  }

  lemma EntriesFree(keys: seq<string>, m: Secrets)
    requires Storable(m) && forall k <- keys :: k in m
    ensures forall e <- Entries(keys, m) :: Free(e, '\n') && |e| > 0
  {
  }

  lemma KeyAndValueFree(line: string)
    requires Free(line, '\n') && Find(line, '=') < |line|
    ensures var pos := Find(line, '=');
      Free(line[..pos], '=') && Free(line[..pos], '\n') && Free(line[pos + 1..], '\n')
  {
  }

  /** Whatever the parser accepts is a map the printer can hold. */
  lemma {:induction false} ParsedIsStorable(lines: seq<string>, m: Secrets)
    requires Storable(m) && forall line <- lines :: Free(line, '\n')
    ensures ParseLines(lines, m).Ok? ==> Storable(ParseLines(lines, m).value)
  {
    if |lines| > 0 {
      var line := lines[0];
      var pos := Find(line, '=');
      if |line| == 0 {
        ParsedIsStorable(lines[1..], m);
      } else if pos < |line| {
        assert line in lines;
        KeyAndValueFree(line);
        ParsedIsStorable(lines[1..], Emplace(m, line[..pos], line[pos + 1..]));
      }
    }
  }

  /** Printing in any order and parsing gives the map back exactly when the map is storable. */
  lemma ListingRoundTrip(m: Secrets, order: seq<string>)
    requires IsOrder(order, m)
    ensures Deserialized(Listing(order, m)) == Ok(m) <==> Storable(m)
  {
    if Storable(m) {
      StorableRoundTrip(m, order);
    }
    LinesAreFree(Listing(order, m));
    ParsedIsStorable(Lines(Listing(order, m)), map[]);
  }

  lemma StorableRoundTrip(m: Secrets, order: seq<string>)
    requires IsOrder(order, m) && Storable(m)
    ensures Deserialized(Listing(order, m)) == Ok(m)
  {
    EntriesFree(order, m);
    LinesOfJoin(Entries(order, m));
    OrderListsAll(order, m);
    ParseEntries(order, m, map[]);
  }

  lemma OrderListsAll(order: seq<string>, m: Secrets)
    requires IsOrder(order, m)
    ensures map[] + Listed(order, m) == m
  {
  }

  /** Loading is stable: what was parsed once survives printing in any order and parsing again. */
  lemma ParsingIsStable(payload: string, m: Secrets, order: seq<string>)
    requires Deserialized(payload) == Ok(m) && IsOrder(order, m)
    ensures Deserialized(Listing(order, m)) == Ok(m)
  {
    LinesAreFree(payload);
    ParsedIsStorable(Lines(payload), map[]);
    StorableRoundTrip(m, order);
  }

  // The file.

  datatype Envelope = Envelope(salt: seq<byte>, iv: seq<byte>, ciphertext: seq<byte>, tag: seq<byte>)

  /** Key derivation and AES-GCM under one master password: sealing may give any bytes, opening may fail. */
  datatype Cipher = Cipher(
    seal: (seq<byte>, seq<byte>, string) -> (seq<byte>, seq<byte>),
    open: Envelope -> Option<string>)
  {
    function Sealed(salt: seq<byte>, iv: seq<byte>, plaintext: string): Envelope {
      var (ciphertext, tag) := seal(salt, iv, plaintext);
      Envelope(salt, iv, ciphertext, tag)
    }

    /** Opening undoes sealing. */
    ghost predicate Inverts() {
      forall salt, iv, plaintext :: open(Sealed(salt, iv, plaintext)) == Some(plaintext)
    }
  }

  function Field(name: string, bytes: seq<byte>): string {
    name + ":" + Base64.Encoded(bytes)
  }

  function FileText(e: Envelope): string {
    Written(FileLines(e))
  }

  function FileLines(e: Envelope): seq<string> {
    ["version:1", Field("salt", e.salt), Field("iv", e.iv), Field("data", e.ciphertext), Field("tag", e.tag)]
  }

  /** Lines written to a stream one after the other, each with its newline. */
  function Written(lines: seq<string>): string {
    if |lines| == 0 then "" else
      var n := |lines| - 1;
      Written(lines[..n]) + lines[n] + ['\n']
  }

  /** One field line: its name must be the expected one, and the rest must be base64. */
  function ParsedField(name: string, line: string): (r: Result<seq<int>, Error>)
    ensures r.Ok? ==> forall i :: 0 <= i < |r.value| ==> 0 <= r.value[i] < 256
  {
    var delimiter := Find(line, ':');
    if delimiter == |line| then Err(InvalidField(line))
    else if line[..delimiter] != name then Err(UnexpectedField(line[..delimiter], name))
    else match Base64.Decoded(line[delimiter + 1..])
      case Ok(bytes) => Ok(bytes)
      case Err(_) => Err(InvalidBase64)
  }

  /** The four fields, checked in the order of the lines. */
  function ParsedFields(lines: seq<string>): (r: Result<Envelope, Error>)
    requires |lines| >= 5
  {
    var salt := ParsedField("salt", lines[1]);
    if salt.Err? then Err(salt.error) else
    var iv := ParsedField("iv", lines[2]);
    if iv.Err? then Err(iv.error) else
    var data := ParsedField("data", lines[3]);
    if data.Err? then Err(data.error) else
    var tag := ParsedField("tag", lines[4]);
    if tag.Err? then Err(tag.error) else
    Ok(Envelope(salt.value, iv.value, data.value, tag.value))
  }

  /** What loading a file gives. */
  function Loaded(cipher: Cipher, file: string): Result<Secrets, Error> {
    var lines := Lines(file);
    if |lines| == 0 || lines[0] != "version:1" then Err(UnsupportedVersion)
    else if |lines| < 5 then Err(Truncated)
    else match ParsedFields(lines)
      case Err(e) => Err(e)
      case Ok(envelope) =>
        match cipher.open(envelope)
        case None => Err(CipherFailure)
        case Some(plaintext) => Deserialized(plaintext)
  }

  /** A field line is accepted when it is the name, a ':', and then, up to any '=', base64 characters. */
  lemma FieldAccepted(name: string, line: string)
    requires Free(name, ':')
    ensures ParsedField(name, line) == Err(InvalidField(line)) <==> Free(line, ':')
    ensures !Free(line, ':') && !(name + [':'] <= line) ==>
              ParsedField(name, line) == Err(UnexpectedField(Before(line, ':'), name))
    ensures name + [':'] <= line && ParsedField(name, line).Err? ==> ParsedField(name, line) == Err(InvalidBase64)
    ensures ParsedField(name, line).Ok?
       <==> name + [':'] <= line && Base64.InAlphabet(Before(line[|name| + 1..], '='))
    ensures ParsedField(name, line).Ok? ==>
              Base64.Decoded(line[|name| + 1..]) == Ok(ParsedField(name, line).value)
  {
    Base64Body(line, |name| + 1);
    if name + [':'] <= line {
      FindIs(line, ':', |name|);
    }
  }

  lemma Base64Body(line: string, from: nat)
    ensures from <= |line| ==>
      (Base64.Decoded(line[from..]).Ok? <==> Base64.InAlphabet(Before(line[from..], '=')))
  {
  }

  /** The first field that is refused gives the error. */
  lemma FieldsRefused(lines: seq<string>)
    requires |lines| >= 5
    ensures var salt, iv := ParsedField("salt", lines[1]), ParsedField("iv", lines[2]);
      var data, tag := ParsedField("data", lines[3]), ParsedField("tag", lines[4]);
      && (salt.Err? ==> ParsedFields(lines) == Err(salt.error))
      && (salt.Ok? && iv.Err? ==> ParsedFields(lines) == Err(iv.error))
      && (salt.Ok? && iv.Ok? && data.Err? ==> ParsedFields(lines) == Err(data.error))
      && (salt.Ok? && iv.Ok? && data.Ok? && tag.Err? ==> ParsedFields(lines) == Err(tag.error))
  {
  }

  /** The four fields are accepted when each of the four lines is. */
  lemma FieldsAccepted(lines: seq<string>, e: Envelope)
    requires |lines| >= 5
    ensures ParsedFields(lines) == Ok(e)
       <==> && ParsedField("salt", lines[1]) == Ok(e.salt) && ParsedField("iv", lines[2]) == Ok(e.iv)
            && ParsedField("data", lines[3]) == Ok(e.ciphertext) && ParsedField("tag", lines[4]) == Ok(e.tag)
  {
  }

  lemma FieldRoundTrip(name: string, bytes: seq<byte>)
    requires Free(name, ':')
    ensures ParsedField(name, Field(name, bytes)) == Ok(bytes)
  {
    FindSeparator(name, ':', Base64.Encoded(bytes));
    assert name + ":" + Base64.Encoded(bytes) == name + [':'] + Base64.Encoded(bytes);
    Base64.DecodeUndoesEncode(bytes);
  }

  lemma FieldFree(name: string, bytes: seq<byte>)
    requires Free(name, '\n')
    ensures Free(Field(name, bytes), '\n')
  {
    Base64.EncodedShape(bytes);
    FreeAround(name, Base64.Encoded(bytes));
  }

  lemma FreeAround(name: string, text: string)
    requires Free(name, '\n')
    requires forall i :: 0 <= i < |text| ==> Base64.SextetOf(text[i]) >= 0 || text[i] == '='
    ensures Free(name + ":" + text, '\n')
  {
    assert Free(text, '\n');
  }

  lemma WrittenSnoc(lines: seq<string>, line: string)
    ensures Written(lines + [line]) == Written(lines) + line + ['\n']
  {
    assert (lines + [line])[..|lines|] == lines;
  }

  lemma {:induction false} LinesOfWritten(lines: seq<string>, rest: string)
    requires forall i :: 0 <= i < |lines| ==> Free(lines[i], '\n')
    ensures Lines(Written(lines) + rest) == lines + Lines(rest)
  {
    if |lines| == 0 {
      assert Written(lines) + rest == rest;
    } else {
      var n := |lines| - 1;
      LinesOfWritten(lines[..n], lines[n] + ['\n'] + rest);
      LinesOfLine(lines[n], rest);
      WrittenStep(lines, rest);
      LastLine(lines, Lines(rest));
    }
  }

  lemma WrittenStep(lines: seq<string>, rest: string)
    requires |lines| > 0
    ensures var n := |lines| - 1;
      Written(lines) + rest == Written(lines[..n]) + (lines[n] + ['\n'] + rest)
  {
  }

  lemma LastLine(lines: seq<string>, more: seq<string>)
    requires |lines| > 0
    ensures lines[..|lines| - 1] + ([lines[|lines| - 1]] + more) == lines + more
  {
  }

  lemma FileRoundTrip(e: Envelope)
    ensures Lines(FileText(e)) == FileLines(e)
  {
    FieldFree("salt", e.salt);
    FieldFree("iv", e.iv);
    FieldFree("data", e.ciphertext);
    FieldFree("tag", e.tag);
    FiveWritten("version:1", Field("salt", e.salt), Field("iv", e.iv),
                Field("data", e.ciphertext), Field("tag", e.tag));
  }

  /** The lines of a saved store, written out from what the cipher gives. */
  lemma SavedLines(cipher: Cipher, salt: seq<byte>, iv: seq<byte>, text: string)
    ensures var (ciphertext, tag) := cipher.seal(salt, iv, text);
      Lines(FileText(cipher.Sealed(salt, iv, text)))
      == ["version:1", "salt" + ":" + Base64.Encoded(salt), "iv" + ":" + Base64.Encoded(iv),
          "data" + ":" + Base64.Encoded(ciphertext), "tag" + ":" + Base64.Encoded(tag)]
  {
    FileRoundTrip(cipher.Sealed(salt, iv, text));
  }

  lemma FiveWritten(a: string, b: string, c: string, d: string, e: string)
    requires Free(a, '\n') && Free(b, '\n') && Free(c, '\n') && Free(d, '\n') && Free(e, '\n')
    ensures Lines(Written([a, b, c, d, e])) == [a, b, c, d, e]
  {
    LinesOfWritten([a, b, c, d, e], "");
    assert Written([a, b, c, d, e]) + "" == Written([a, b, c, d, e]);
  }

  lemma FieldsRoundTrip(e: Envelope)
    ensures ParsedFields(FileLines(e)) == Ok(e)
  {
    FieldRoundTrip("salt", e.salt);
    FieldsFromIv(e, Field("salt", e.salt));
  }

  lemma FieldsFromIv(e: Envelope, salt: string)
    requires ParsedField("salt", salt) == Ok(e.salt)
    ensures ParsedFields(["version:1", salt, Field("iv", e.iv), Field("data", e.ciphertext), Field("tag", e.tag)])
         == Ok(e)
  {
    FieldRoundTrip("iv", e.iv);
    FieldsFromData(e, salt, Field("iv", e.iv));
  }

  lemma FieldsFromData(e: Envelope, salt: string, iv: string)
    requires ParsedField("salt", salt) == Ok(e.salt) && ParsedField("iv", iv) == Ok(e.iv)
    ensures ParsedFields(["version:1", salt, iv, Field("data", e.ciphertext), Field("tag", e.tag)]) == Ok(e)
  {
    FieldRoundTrip("data", e.ciphertext);
    FieldsFromTag(e, salt, iv, Field("data", e.ciphertext));
  }

  lemma FieldsFromTag(e: Envelope, salt: string, iv: string, data: string)
    requires ParsedField("salt", salt) == Ok(e.salt) && ParsedField("iv", iv) == Ok(e.iv)
    requires ParsedField("data", data) == Ok(e.ciphertext)
    ensures ParsedFields(["version:1", salt, iv, data, Field("tag", e.tag)]) == Ok(e)
  {
    FieldRoundTrip("tag", e.tag);
    FiveTogether(e, salt, iv, data, Field("tag", e.tag));
  }

  lemma FiveTogether(e: Envelope, salt: string, iv: string, data: string, tag: string)
    requires ParsedField("salt", salt) == Ok(e.salt) && ParsedField("iv", iv) == Ok(e.iv)
    requires ParsedField("data", data) == Ok(e.ciphertext) && ParsedField("tag", tag) == Ok(e.tag)
    ensures ParsedFields(["version:1", salt, iv, data, tag]) == Ok(e)
  {
    FieldsAccepted(["version:1", salt, iv, data, tag], e);
  }

  /**
   When loading succeeds, and with what: the version is known, there are five lines, their fields are accepted,
   the cipher opens the envelope, and the plaintext parses.
   */
  lemma LoadedMeans(cipher: Cipher, file: string, m: Secrets)
    ensures Loaded(cipher, file) == Ok(m)
       <==> && |Lines(file)| >= 5 && Lines(file)[0] == "version:1"
            && ParsedFields(Lines(file)).Ok?
            && cipher.open(ParsedFields(Lines(file)).value).Some?
            && Deserialized(cipher.open(ParsedFields(Lines(file)).value).value) == Ok(m)
  {
  }

  /** Saving and then loading restores the map exactly when it is storable, whatever the order it is walked in. */
  lemma SaveLoadRoundTrip(cipher: Cipher, salt: seq<byte>, iv: seq<byte>, m: Secrets, order: seq<string>)
    requires cipher.Inverts() && IsOrder(order, m)
    ensures Loaded(cipher, FileText(cipher.Sealed(salt, iv, Listing(order, m)))) == Ok(m) <==> Storable(m)
  {
    LoadedFile(cipher, cipher.Sealed(salt, iv, Listing(order, m)), Listing(order, m));
    ListingRoundTrip(m, order);
  }

  lemma LoadedFile(cipher: Cipher, e: Envelope, plaintext: string)
    requires cipher.open(e) == Some(plaintext)
    ensures Loaded(cipher, FileText(e)) == Deserialized(plaintext)
  {
    FileRoundTrip(e);
    FieldsRoundTrip(e);
  }

  /** An '=' in a key is lost: the pair moves to a shorter key. */
  lemma EqualsInKeyMoves()
    ensures IsOrder(["a=b"], map["a=b" := "c"])
    ensures Deserialized(Listing(["a=b"], map["a=b" := "c"])) == Ok(map["a" := "b=c"])
  {
    var m := map["a=b" := "c"];
    var line := Entry("a=b", "c");
    assert Entries(["a=b"], m) == [line];
    assert line == Entry("a", "b=c");
    LinesOfLast(line);
    ParseEntry([line], "a", "b=c", map[]);
  }

  /** The store itself. */
  class Store {
    var secrets: Secrets
    const cipher: Cipher

    constructor (cipher: Cipher)
      ensures this.cipher == cipher && secrets == map[]
    {
      this.cipher := cipher;
      secrets := map[];
    }

    method SetSecret(key: string, value: string)
      modifies this
      ensures secrets == old(secrets)[key := value]
    {
      secrets := secrets[key := value];
    }

    method GetSecret(key: string) returns (value: Option<string>)
      ensures value == if key in secrets then Some(secrets[key]) else None
    {
      if key !in secrets {
        return None;
      }
      return Some(secrets[key]);
    }

    method EraseSecret(key: string)
      modifies this
      ensures secrets == old(secrets) - {key}
    {
      if key in secrets {
        secrets := secrets - {key};
      }
    }

    method ListKeys() returns (keys: seq<string>)
      ensures IsOrder(keys, secrets)
    {
      keys := [];
      var remaining := secrets.Keys;
      while remaining != {}
        invariant remaining <= secrets.Keys
        invariant forall i, j :: 0 <= i < j < |keys| ==> keys[i] != keys[j]
        invariant forall k :: k in keys <==> k in secrets && k !in remaining
      {
        var key :| key in remaining;
        keys := keys + [key];
        remaining := remaining - {key};
      }
    }

    /** `salt` and `iv` are fresh random bytes. Loading the file gives the map back exactly when it is storable. */
    method Save(salt: seq<byte>, iv: seq<byte>) returns (file: ByteString)
      ensures exists text :: IsListing(text, secrets) && file == FileText(cipher.Sealed(salt, iv, text))
      ensures cipher.Inverts() ==> (Loaded(cipher, file) == Ok(secrets) <==> Storable(secrets))
    {
      var plaintext := Serialize(secrets);
      var envelope := cipher.Sealed(salt, iv, plaintext);
      var salt64 := Base64.EncodeBase64(envelope.salt);
      var iv64 := Base64.EncodeBase64(envelope.iv);
      var data64 := Base64.EncodeBase64(envelope.ciphertext);
      var tag64 := Base64.EncodeBase64(envelope.tag);
      file := WriteLines(["version:1", "salt" + ":" + salt64, "iv" + ":" + iv64,
                          "data" + ":" + data64, "tag" + ":" + tag64]);
      assert file == FileText(envelope);
      ghost var order :| IsOrder(order, secrets) && plaintext == Listing(order, secrets);
      if cipher.Inverts() {
        SaveLoadRoundTrip(cipher, salt, iv, secrets, order);
      }
    }

    /** A failed load leaves the store as it was. */
    method Load(file: ByteString) returns (failure: Option<Error>)
      modifies this
      ensures match Loaded(cipher, file)
        case Ok(m) => failure == None && secrets == m
        case Err(e) => failure == Some(e) && secrets == old(secrets)
      ensures failure.Some? ==> secrets == old(secrets)
      ensures var lines := Lines(file);
        if |lines| == 0 || lines[0] != "version:1" then failure == Some(UnsupportedVersion)
        else if |lines| < 5 then failure == Some(Truncated)
        else match ParsedFields(lines)
          case Err(e) => failure == Some(e)
          case Ok(envelope) =>
            (cipher.open(envelope).None? ==> failure == Some(CipherFailure))
            && (cipher.open(envelope).Some? ==>
                  match Deserialized(cipher.open(envelope).value)
                  case Err(e) => failure == Some(e)
                  case Ok(m) => failure == None && secrets == m)
    {
      var lines := ReadLines(file);
      if |lines| == 0 || lines[0] != "version:1" {
        return Some(UnsupportedVersion);
      }
      if |lines| < 5 {
        return Some(Truncated);
      }
      var envelope := ParseFields(lines);
      if envelope.Err? {
        return Some(envelope.error);
      }
      var plaintext := cipher.open(envelope.value);
      if plaintext.None? {
        return Some(CipherFailure);
      }
      var parsed := Deserialize(plaintext.value);
      if parsed.Err? {
        return Some(parsed.error);
      }
      secrets := parsed.value;
      return None;
    }
  }

  /** Saving and loading: a store with the same password gets the same secrets exactly when they are storable. */
  method SaveThenLoad(store: Store, other: Store, salt: seq<byte>, iv: seq<byte>) returns (failure: Option<Error>)
    requires other.cipher == store.cipher && store.cipher.Inverts()
    modifies other
    ensures failure == None && other.secrets == old(store.secrets) <==> Storable(old(store.secrets))
  {
    var file := store.Save(salt, iv);
    failure := other.Load(file);
  }

  method WriteLines(lines: seq<ByteString>) returns (stream: ByteString)
    ensures stream == Written(lines)
  {
    stream := "";
    for i := 0 to |lines|
      invariant stream == Written(lines[..i])
    {
      WrittenSnoc(lines[..i], lines[i]);
      assert lines[..i + 1] == lines[..i] + [lines[i]];
      stream := stream + lines[i] + "\n";
    }
    assert lines[..|lines|] == lines;
  }

  method ReadLines(file: ByteString) returns (lines: seq<ByteString>)
    ensures lines == Lines(file)
  {
    lines := [];
    var stream := file;
    while |stream| > 0
      invariant lines + Lines(stream) == Lines(file)
      decreases |stream|
    {
      LinesStep(lines, stream);
      var line, rest := GetLine(stream);
      lines := lines + [line];
      stream := rest;
    }
  }

  /** One `getline`. */
  method GetLine(stream: ByteString) returns (line: ByteString, rest: ByteString)
    requires |stream| > 0
    ensures line == Before(stream, '\n') && rest == AfterLine(stream)
  {
    line := Before(stream, '\n');
    rest := AfterLine(stream);
  }

  lemma LinesStep(lines: seq<string>, s: string)
    requires |s| > 0
    ensures lines + Lines(s) == (lines + [Before(s, '\n')]) + Lines(AfterLine(s))
  {
    Assoc(lines, [Before(s, '\n')], Lines(AfterLine(s)));
  }

  method ParseField(name: string, line: ByteString) returns (r: Result<seq<byte>, Error>)
    ensures r == ParsedField(name, line)
  {
    var delimiter := Find(line, ':');
    if delimiter == |line| {
      return Err(InvalidField(line));
    }
    var key := line[..delimiter];
    if key != name {
      return Err(UnexpectedField(key, name));
    }
    var decoded := Base64.DecodeBase64(line[delimiter + 1..]);
    if decoded.Err? {
      return Err(InvalidBase64);
    }
    return Ok(decoded.value);
  }

  method ParseFields(lines: seq<ByteString>) returns (r: Result<Envelope, Error>)
    requires |lines| >= 5
    ensures r == ParsedFields(lines)
  {
    var salt := ParseField("salt", lines[1]);
    if salt.Err? {
      return Err(salt.error);
    }
    var iv := ParseField("iv", lines[2]);
    if iv.Err? {
      return Err(iv.error);
    }
    var data := ParseField("data", lines[3]);
    if data.Err? {
      return Err(data.error);
    }
    var tag := ParseField("tag", lines[4]);
    if tag.Err? {
      return Err(tag.error);
    }
    return Ok(Envelope(salt.value, iv.value, data.value, tag.value));
  }
}
