/**
 Shell code that applies a set of environment changes, and the proof that a
 shell reading that code sees exactly those changes.

 The reader is a lexer for the two quoting dialects: section 2.2 of the POSIX
 Shell Command Language (backslash, 2.2.1, and single quotes, 2.2.2) and fish,
 whose single quotes know two escapes. Unquoted characters a shell could treat
 specially are rejected outright, so nothing is left to expansion.
 */
module ShellEnvironment {
  import opened Wire
  import opened Ordering

  datatype Shell = Sh | Fish

  /** A variable set to a value, or unset. */
  type Values = map<bytes, Option<bytes>>

  const NEWLINE: byte := 0x0A
  const SPACE: byte := 0x20
  const QUOTE: byte := 0x27
  const BACKSLASH: byte := 0x5C
  const EQUALS: byte := 0x3D
  const DASH: byte := 0x2D

  /** The bytes of an ASCII literal. */
  function Text(s: string): bytes
    requires forall i :: 0 <= i < |s| ==> s[i] < 128 as char
  {
    seq(|s|, i requires 0 <= i < |s| => s[i] as int)
  }

  predicate NameByte(c: byte) {
    c == 0x5F || 0x41 <= c <= 0x5A || 0x61 <= c <= 0x7A || 0x30 <= c <= 0x39
  }

  predicate IsName(name: bytes) {
    && name != [] && !(0x30 <= name[0] <= 0x39)
    && forall i :: 0 <= i < |name| ==> NameByte(name[i])
  }

  method IsEnvironmentName(name: bytes) returns (ok: bool)
    ensures ok <==> IsName(name)
  {
    if name == [] || (0x30 <= name[0] <= 0x39) {
      return false;
    }
    for i := 0 to |name|
      invariant forall j :: 0 <= j < i ==> NameByte(name[j])
    {
      if !NameByte(name[i]) {
        return false;
      }
    }
    return true;
  }

  // ----- Quoting

  /** Inside single quotes: sh closes, escapes and reopens; fish escapes in place. */
  function Escape(shell: Shell, v: bytes): bytes {
    if v == [] then []
    else
      (match shell
       case Sh => if v[0] == QUOTE then [QUOTE, BACKSLASH, QUOTE, QUOTE] else [v[0]]
       case Fish => if v[0] == QUOTE || v[0] == BACKSLASH then [BACKSLASH, v[0]] else [v[0]])
      + Escape(shell, v[1..])
  }

  function Quote(shell: Shell, v: bytes): bytes {
    [QUOTE] + (Escape(shell, v) + [QUOTE])
  }

  function Line(shell: Shell, key: bytes, value: Option<bytes>): bytes {
    match (shell, value)
    case (Fish, None) => Text("set -e -g ") + (key + [NEWLINE])
    case (Fish, Some(v)) => Text("set -gx ") + (key + ([SPACE] + (Quote(Fish, v) + [NEWLINE])))
    case (Sh, None) => Text("unset ") + (key + [NEWLINE])
    case (Sh, Some(v)) => Text("export ") + (key + ([EQUALS] + (Quote(Sh, v) + [NEWLINE])))
  }

  function Script(shell: Shell, keys: seq<bytes>, values: Values): bytes
    requires forall i :: 0 <= i < |keys| ==> keys[i] in values
  {
    if keys == [] then [] else Line(shell, keys[0], values[keys[0]]) + Script(shell, keys[1..], values)
  }

  /** Nothing is produced when any name is invalid. */
  method WriteShellEnvironment(shell: Shell, values: Values) returns (code: Option<bytes>)
    ensures code.Some? <==> forall key :: key in values ==> IsName(key)
    ensures code.Some? ==>
              && (forall i :: 0 <= i < |SortedSeq(values.Keys)| ==> SortedSeq(values.Keys)[i] in values)
              && code.value == Script(shell, SortedSeq(values.Keys), values)
              && Read(shell, code.value, FRESH) == Some(CommandsFor(shell, SortedSeq(values.Keys), values))
  {
    hide IsName, SortedSeq, Script, Less, Read, CommandsFor;
    var ok := AllNames(values.Keys);
    if !ok {
      return None;
    }
    var keys := SortKeys(values.Keys);
    assert forall i :: 0 <= i < |keys| ==> keys[i] in Elements(keys);
    var out := BuildScript(shell, keys, values);
    ScriptReadsBack(shell, keys, values, []);
    assert [] + CommandsFor(shell, keys, values) == CommandsFor(shell, keys, values);
    return Some(out);
  }

  method AllNames(keys: set<bytes>) returns (ok: bool)
    ensures ok <==> forall key :: key in keys ==> IsName(key)
  {
    hide IsName;
    var todo := keys;
    while todo != {}
      invariant todo <= keys && forall key :: key in keys && key !in todo ==> IsName(key)
      decreases todo
    {
      var key :| key in todo;
      ok := IsEnvironmentName(key);
      if !ok {
        return;
      }
      todo := todo - {key};
    }
    return true;
  }

  method BuildScript(shell: Shell, keys: seq<bytes>, values: Values) returns (out: bytes)
    requires forall i :: 0 <= i < |keys| ==> keys[i] in values
    ensures out == Script(shell, keys, values)
  {
    hide Line;
    out := [];
    for i := 0 to |keys|
      invariant out + Script(shell, keys[i..], values) == Script(shell, keys, values)
    {
      ghost var rest := Script(shell, keys[i + 1..], values);
      assert keys[i..][1..] == keys[i + 1..];
      var line := Line(shell, keys[i], values[keys[i]]);
      assert out + (line + rest) == (out + line) + rest;
      out := out + line;
    }
    assert out + [] == out;
  }

  // ----- Reading shell code

  type Command = seq<bytes>

  /** The word being read (if any), the words of the command so far, the commands so far. */
  datatype Reader = Reader(quoted: bool, word: Option<bytes>, words: Command, commands: seq<Command>)

  const FRESH: Reader := Reader(false, None, [], [])

  function Extend(r: Reader, c: byte): Reader {
    r.(word := Some((if r.word.Some? then r.word.value else []) + [c]))
  }

  function EndWord(r: Reader): Reader {
    if r.word.None? then r else r.(word := None, words := r.words + [r.word.value])
  }

  function EndCommand(r: Reader): Reader {
    var e := EndWord(r);
    if e.words == [] then e else e.(words := [], commands := e.commands + [e.words])
  }

  predicate Literal(c: byte) {
    NameByte(c) || c == EQUALS || c == DASH
  }

  /** `None` for an unterminated quote or an unquoted special character. */
  function Read(shell: Shell, b: bytes, r: Reader): Option<seq<Command>>
    decreases |b|
  {
    if b == [] then (if r.quoted then None else Some(EndCommand(r).commands))
    else if r.quoted then
      if b[0] == QUOTE then Read(shell, b[1..], r.(quoted := false))
      else if shell == Fish && b[0] == BACKSLASH && |b| > 1 && (b[1] == QUOTE || b[1] == BACKSLASH) then
        Read(shell, b[2..], Extend(r, b[1]))
      else Read(shell, b[1..], Extend(r, b[0]))
    else if b[0] == QUOTE then
      Read(shell, b[1..], r.(quoted := true, word := Some(if r.word.Some? then r.word.value else [])))
    else if b[0] == BACKSLASH then
      if |b| < 2 then None
      else if b[1] == NEWLINE then Read(shell, b[2..], r)
      else Read(shell, b[2..], Extend(r, b[1]))
    else if b[0] == NEWLINE then Read(shell, b[1..], EndCommand(r))
    else if b[0] == SPACE then Read(shell, b[1..], EndWord(r))
    else if Literal(b[0]) then Read(shell, b[1..], Extend(r, b[0]))
    else None
  }

  /** The command a change stands for. */
  function CommandFor(shell: Shell, key: bytes, value: Option<bytes>): Command {
    match (shell, value)
    case (Fish, None) => [Text("set"), Text("-e"), Text("-g"), key]
    case (Fish, Some(v)) => [Text("set"), Text("-gx"), key, v]
    case (Sh, None) => [Text("unset"), key]
    case (Sh, Some(v)) => [Text("export"), key + [EQUALS] + v]
  }

  function CommandsFor(shell: Shell, keys: seq<bytes>, values: Values): seq<Command>
    requires forall i :: 0 <= i < |keys| ==> keys[i] in values
  {
    if keys == [] then [] else [CommandFor(shell, keys[0], values[keys[0]])] + CommandsFor(shell, keys[1..], values)
  }

  // ----- Reading back what was written

  function Word(r: Reader): bytes {
    if r.word.Some? then r.word.value else []
  }

  /** An unquoted run of literal characters is read as itself. */
  lemma {:induction false} ReadLiteral(shell: Shell, s: bytes, k: bytes, r: Reader)
    requires !r.quoted && s != [] && forall i :: 0 <= i < |s| ==> Literal(s[i])
    ensures Read(shell, s + k, r) == Read(shell, k, r.(word := Some(Word(r) + s)))
    decreases |s|
  {
    var r1 := Extend(r, s[0]);
    assert (s + k)[0] == s[0] && (s + k)[1..] == s[1..] + k;
    if |s| == 1 {
      assert s[1..] + k == k && s == [s[0]];
    } else {
      ReadLiteral(shell, s[1..], k, r1);
      assert Word(r1) + s[1..] == Word(r) + s;
    }
  }

  /** A quoted value is read as that value, whatever its bytes. */
  lemma {:induction false} ReadEscaped(shell: Shell, v: bytes, k: bytes, r: Reader)
    requires r.quoted && r.word.Some?
    ensures Read(shell, Escape(shell, v) + ([QUOTE] + k), r)
            == Read(shell, k, r.(quoted := false, word := Some(r.word.value + v)))
    decreases |v|
  {
    hide Read, Escape;
    var end := [QUOTE] + k;
    if v == [] {
      ReadEnd(shell, k, r);
      assert r.word.value + v == r.word.value;
    } else {
      var r1 := Extend(r, v[0]);
      var rest := Escape(shell, v[1..]) + end;
      ReadEscaped(shell, v[1..], k, r1);
      assert r1.word.value + v[1..] == r.word.value + v;
      ReadOneEscaped(shell, v, rest, r);
      assert Escape(shell, v) + end == Escape(shell, [v[0]]) + rest by {
        EscapeOne(shell, v);
        assert (Escape(shell, [v[0]]) + Escape(shell, v[1..])) + end == Escape(shell, [v[0]]) + rest;
      }
    }
  }

  lemma ReadEnd(shell: Shell, k: bytes, r: Reader)
    requires r.quoted && r.word.Some?
    ensures Read(shell, Escape(shell, []) + ([QUOTE] + k), r) == Read(shell, k, r.(quoted := false))
  {
    assert Escape(shell, []) + ([QUOTE] + k) == [QUOTE] + k;
    assert ([QUOTE] + k)[1..] == k;
  }

  lemma EscapeOne(shell: Shell, v: bytes)
    requires v != []
    ensures Escape(shell, v) == Escape(shell, [v[0]]) + Escape(shell, v[1..])
  {
    assert [v[0]][1..] == [];
    assert Escape(shell, []) == [];
  }

  lemma ReadOneEscaped(shell: Shell, v: bytes, rest: bytes, r: Reader)
    requires r.quoted && r.word.Some? && v != []
    ensures Read(shell, Escape(shell, [v[0]]) + rest, r) == Read(shell, rest, Extend(r, v[0]))
  {
    var c := v[0];
    var e := Escape(shell, [c]);
    assert [c][1..] == [] && Escape(shell, []) == [];
    var b := e + rest;
    if shell == Sh && c == QUOTE {
      assert e == [QUOTE, BACKSLASH, QUOTE, QUOTE];
      var r1 := r.(quoted := false);
      assert b[1..][0] == BACKSLASH && b[1..][1] == QUOTE;
      assert b[1..][2..] == b[3..] && b[3..][0] == QUOTE && b[3..][1..] == rest;
      assert Read(shell, b, r) == Read(shell, b[1..], r1);
      assert Read(shell, b[1..], r1) == Read(shell, b[3..], Extend(r1, QUOTE));
    } else if shell == Fish && (c == QUOTE || c == BACKSLASH) {
      assert e == [BACKSLASH, c] && b[2..] == rest;
    } else {
      assert e == [c] && b[1..] == rest && b[0] == c;
      FirstOfEscape(shell, c, rest);
    }
  }

  lemma FirstOfEscape(shell: Shell, c: byte, rest: bytes)
    requires c != QUOTE && !(shell == Fish && c == BACKSLASH)
    ensures ([c] + rest)[0] == c && ([c] + rest)[1..] == rest
  {
  }

  lemma ReadQuoted(shell: Shell, v: bytes, k: bytes, r: Reader)
    requires !r.quoted
    ensures Read(shell, Quote(shell, v) + k, r) == Read(shell, k, r.(word := Some(Word(r) + v)))
  {
    var b := Quote(shell, v) + k;
    var inner := Escape(shell, v) + ([QUOTE] + k);
    assert b[0] == QUOTE && b[1..] == inner;
    var r1 := r.(quoted := true, word := Some(Word(r)));
    ReadEscaped(shell, v, k, r1);
  }

  lemma ReadSpace(shell: Shell, k: bytes, r: Reader, w: bytes)
    requires !r.quoted && r.word == Some(w)
    ensures Read(shell, [SPACE] + k, r) == Read(shell, k, r.(word := None, words := r.words + [w]))
  {
    assert ([SPACE] + k)[1..] == k;
  }

  lemma ReadNewline(shell: Shell, k: bytes, r: Reader, w: bytes)
    requires !r.quoted && r.word == Some(w)
    ensures Read(shell, [NEWLINE] + k, r) == Read(shell, k, Reader(false, None, [], r.commands + [r.words + [w]]))
  {
    assert ([NEWLINE] + k)[1..] == k;
  }

  /** A whole unquoted word and the space after it. */
  lemma ReadWord(shell: Shell, s: bytes, k: bytes, r: Reader)
    requires !r.quoted && r.word == None && s != [] && forall i :: 0 <= i < |s| ==> Literal(s[i])
    ensures Read(shell, s + ([SPACE] + k), r) == Read(shell, k, r.(words := r.words + [s]))
  {
    hide Read;
    ReadLiteral(shell, s, [SPACE] + k, r);
    assert Word(r) + s == s;
    ReadSpace(shell, k, r.(word := Some(s)), s);
  }

  lemma ReadUnset(key: bytes, k: bytes, r: Reader)
    requires IsName(key) && r == FRESH.(commands := r.commands)
    ensures Read(Sh, Line(Sh, key, None) + k, r)
              == Read(Sh, k, FRESH.(commands := r.commands + [CommandFor(Sh, key, None)]))
  {
    hide Read;
    var word := Text("unset");
    var tail := key + ([NEWLINE] + k);
    assert Line(Sh, key, None) + k == word + ([SPACE] + tail);
    ReadWord(Sh, word, tail, r);
    ReadLastWord(Sh, key, k, r.(words := [] + [word]));
    assert [] + [word] + [key] == CommandFor(Sh, key, None);
  }

  lemma ReadExport(key: bytes, v: bytes, k: bytes, r: Reader)
    requires IsName(key) && r == FRESH.(commands := r.commands)
    ensures Read(Sh, Line(Sh, key, Some(v)) + k, r)
              == Read(Sh, k, FRESH.(commands := r.commands + [CommandFor(Sh, key, Some(v))]))
  {
    hide Read, Quote;
    var word := Text("export");
    var tail := key + ([EQUALS] + (Quote(Sh, v) + ([NEWLINE] + k)));
    assert Line(Sh, key, Some(v)) + k == word + ([SPACE] + tail);
    ReadWord(Sh, word, tail, r);
    ReadAssignment(key, v, k, r.(words := [] + [word]));
    assert [] + [word] + [key + [EQUALS] + v] == CommandFor(Sh, key, Some(v));
  }

  lemma ReadErase(key: bytes, k: bytes, r: Reader)
    requires IsName(key) && r == FRESH.(commands := r.commands)
    ensures Read(Fish, Line(Fish, key, None) + k, r)
              == Read(Fish, k, FRESH.(commands := r.commands + [CommandFor(Fish, key, None)]))
  {
    hide Read;
    var tail := key + ([NEWLINE] + k);
    var tail1 := Text("-g") + ([SPACE] + tail);
    var tail2 := Text("-e") + ([SPACE] + tail1);
    assert Line(Fish, key, None) + k == Text("set") + ([SPACE] + tail2);
    ReadWord(Fish, Text("set"), tail2, r);
    var w1 := [] + [Text("set")];
    ReadWord(Fish, Text("-e"), tail1, r.(words := w1));
    var w2 := w1 + [Text("-e")];
    ReadWord(Fish, Text("-g"), tail, r.(words := w2));
    var w3 := w2 + [Text("-g")];
    ReadLastWord(Fish, key, k, r.(words := w3));
    assert w3 + [key] == CommandFor(Fish, key, None);
  }

  lemma ReadSet(key: bytes, v: bytes, k: bytes, r: Reader)
    requires IsName(key) && r == FRESH.(commands := r.commands)
    ensures Read(Fish, Line(Fish, key, Some(v)) + k, r)
              == Read(Fish, k, FRESH.(commands := r.commands + [CommandFor(Fish, key, Some(v))]))
  {
    hide Read, Quote;
    var tail := Quote(Fish, v) + ([NEWLINE] + k);
    var tail1 := key + ([SPACE] + tail);
    var tail2 := Text("-gx") + ([SPACE] + tail1);
    assert Line(Fish, key, Some(v)) + k == Text("set") + ([SPACE] + tail2);
    ReadWord(Fish, Text("set"), tail2, r);
    var w1 := [] + [Text("set")];
    ReadWord(Fish, Text("-gx"), tail1, r.(words := w1));
    var w2 := w1 + [Text("-gx")];
    ReadWord(Fish, key, tail, r.(words := w2));
    var r3 := r.(words := w2 + [key]);
    ReadQuoted(Fish, v, [NEWLINE] + k, r3);
    assert Word(r3) + v == v;
    ReadNewline(Fish, k, r3.(word := Some(v)), v);
    assert w2 + [key] + [v] == CommandFor(Fish, key, Some(v));
  }

  /** One line is read as the one command it stands for. */
  lemma ReadLine(shell: Shell, key: bytes, value: Option<bytes>, k: bytes, done: seq<Command>)
    requires IsName(key)
    ensures Read(shell, Line(shell, key, value) + k, FRESH.(commands := done))
            == Read(shell, k, FRESH.(commands := done + [CommandFor(shell, key, value)]))
  {
    hide Read, Line, CommandFor, IsName;
    var r := FRESH.(commands := done);
    match (shell, value)
    case (Sh, None) => ReadUnset(key, k, r);
    case (Sh, Some(v)) => ReadExport(key, v, k, r);
    case (Fish, None) => ReadErase(key, k, r);
    case (Fish, Some(v)) => ReadSet(key, v, k, r);
  }

  lemma ReadLastWord(shell: Shell, key: bytes, k: bytes, r: Reader)
    requires IsName(key) && !r.quoted && r.word == None
    ensures Read(shell, key + ([NEWLINE] + k), r)
              == Read(shell, k, Reader(false, None, [], r.commands + [r.words + [key]]))
  {
    hide Read;
    ReadLiteral(shell, key, [NEWLINE] + k, r);
    assert Word(r) + key == key;
    ReadNewline(shell, k, r.(word := Some(key)), key);
  }

  lemma ReadAssignment(key: bytes, v: bytes, k: bytes, r: Reader)
    requires IsName(key) && !r.quoted && r.word == None
    ensures Read(Sh, key + ([EQUALS] + (Quote(Sh, v) + ([NEWLINE] + k))), r)
            == Read(Sh, k, Reader(false, None, [], r.commands + [r.words + [key + [EQUALS] + v]]))
  {
    hide Read, Quote;
    var tail := Quote(Sh, v) + ([NEWLINE] + k);
    assert key + ([EQUALS] + tail) == (key + [EQUALS]) + tail;
    ReadLiteral(Sh, key + [EQUALS], tail, r);
    assert Word(r) + (key + [EQUALS]) == key + [EQUALS];
    var r1 := r.(word := Some(key + [EQUALS]));
    ReadQuoted(Sh, v, [NEWLINE] + k, r1);
    ReadNewline(Sh, k, r1.(word := Some(key + [EQUALS] + v)), key + [EQUALS] + v);
  }

  /**
   Reading the whole script gives back exactly the requested changes, in order,
   for values with any bytes at all.
   */
  lemma {:induction false} ScriptReadsBack(shell: Shell, keys: seq<bytes>, values: Values, done: seq<Command>)
    requires forall i :: 0 <= i < |keys| ==> keys[i] in values && IsName(keys[i])
    ensures Read(shell, Script(shell, keys, values), FRESH.(commands := done))
              == Some(done + CommandsFor(shell, keys, values))
    decreases |keys|
  {
    hide IsName, Line, CommandFor;
    if keys == [] {
      assert done + [] == done;
    } else {
      var c := CommandFor(shell, keys[0], values[keys[0]]);
      ReadLine(shell, keys[0], values[keys[0]], Script(shell, keys[1..], values), done);
      ScriptReadsBack(shell, keys[1..], values, done + [c]);
      assert (done + [c]) + CommandsFor(shell, keys[1..], values) == done + CommandsFor(shell, keys, values);
    }
  }

  // ----- What the commands do

  /** Exported variables, and fish's universal ones, which outlive the session. */
  datatype Environment = Environment(exported: map<bytes, bytes>, universal: map<bytes, bytes>)

  /** The position of the first equals sign; the length when there is none. */
  function FirstEquals(w: bytes): (i: nat)
    ensures i <= |w| && (i < |w| ==> w[i] == '=' as int) && forall j :: 0 <= j < i ==> w[j] != '=' as int
  {
    if w == [] || w[0] == '=' as int then 0 else 1 + FirstEquals(w[1..])
  }

  /**
   The commands used, as the shells define them. Erasing without `-g` reaches a
   universal variable when there is no global one.
   */
  function Execute(shell: Shell, c: Command, e: Environment): Option<Environment> {
    match shell
    case Sh =>
      if |c| == 2 && c[0] == Text("unset") then Some(e.(exported := e.exported - {c[1]}))
      else if |c| == 2 && c[0] == Text("export") && FirstEquals(c[1]) < |c[1]| then
        var i := FirstEquals(c[1]);
        Some(e.(exported := e.exported[c[1][..i] := c[1][i + 1..]]))
      else None
    case Fish =>
      if |c| == 4 && c[0] == Text("set") && c[1] == Text("-gx") then Some(e.(exported := e.exported[c[2] := c[3]]))
      else if |c| == 4 && c[0] == Text("set") && c[1] == Text("-e") && c[2] == Text("-g") then
        Some(e.(exported := e.exported - {c[3]}))
      else if |c| == 3 && c[0] == Text("set") && c[1] == Text("-e") then
        if c[2] in e.exported then Some(e.(exported := e.exported - {c[2]}))
        else Some(e.(universal := e.universal - {c[2]}))
      else None
  }

  function ExecuteAll(shell: Shell, cs: seq<Command>, e: Environment): Option<Environment>
    decreases |cs|
  {
    if cs == [] then Some(e)
    else
      match Execute(shell, cs[0], e)
      case None => None
      case Some(next) => ExecuteAll(shell, cs[1..], next)
  }

  /** One variable set to its value, or gone. */
  function Changed(m: map<bytes, bytes>, key: bytes, value: Option<bytes>): map<bytes, bytes> {
    if value.Some? then m[key := value.value] else m - {key}
  }

  lemma Words()
    ensures Text("set") == [0x73, 0x65, 0x74] && Text("-gx") == [0x2D, 0x67, 0x78]
    ensures Text("-e") == [0x2D, 0x65] && Text("-g") == [0x2D, 0x67]
    ensures Text("unset") == [0x75, 0x6E, 0x73, 0x65, 0x74] && Text("export") == [0x65, 0x78, 0x70, 0x6F, 0x72, 0x74]
  {
  }

  lemma {:induction false} NameHasNoEquals(key: bytes, v: bytes)
    requires forall i :: 0 <= i < |key| ==> NameByte(key[i])
    ensures FirstEquals(key + [EQUALS] + v) == |key|
    decreases |key|
  {
    var w := key + [EQUALS] + v;
    if key == [] {
    } else {
      NameHasNoEquals(key[1..], v);
      assert w[0] == key[0] && w[1..] == key[1..] + [EQUALS] + v;
    }
  }

  lemma ExecuteOne(shell: Shell, key: bytes, value: Option<bytes>, e: Environment)
    requires IsName(key)
    ensures Execute(shell, CommandFor(shell, key, value), e)
            == Some(Environment(Changed(e.exported, key, value), e.universal))
  {
    hide Text;
    Words();
    if shell == Sh && value.Some? {
      NameHasNoEquals(key, value.value);
      var w := key + [EQUALS] + value.value;
      assert w[..|key|] == key && w[|key| + 1..] == value.value;
    }
  }

  /** The variables after every listed change. */
  function ChangedAll(m: map<bytes, bytes>, keys: seq<bytes>, values: Values): map<bytes, bytes>
    requires forall i :: 0 <= i < |keys| ==> keys[i] in values
    decreases |keys|
  {
    if keys == [] then m else ChangedAll(Changed(m, keys[0], values[keys[0]]), keys[1..], values)
  }

  lemma {:induction false} ExecuteAllOf(shell: Shell, keys: seq<bytes>, values: Values, e: Environment)
    requires forall i :: 0 <= i < |keys| ==> keys[i] in values && IsName(keys[i])
    ensures ExecuteAll(shell, CommandsFor(shell, keys, values), e)
            == Some(Environment(ChangedAll(e.exported, keys, values), e.universal))
    decreases |keys|
  {
    hide IsName, CommandFor, Execute, Changed;
    if keys == [] {
    } else {
      ExecuteOne(shell, keys[0], values[keys[0]], e);
      var next := Environment(Changed(e.exported, keys[0], values[keys[0]]), e.universal);
      ExecuteAllOf(shell, keys[1..], values, next);
    }
  }

  lemma {:induction false} ChangedAllAt(m: map<bytes, bytes>, keys: seq<bytes>, values: Values, name: bytes)
    requires forall i :: 0 <= i < |keys| ==> keys[i] in values
    ensures var after := ChangedAll(m, keys, values);
            if name in keys then
              if values[name].Some? then name in after && after[name] == values[name].value else name !in after
            else (name in after <==> name in m) && (name in m ==> after[name] == m[name])
    decreases |keys|
  {
    if keys != [] {
      ChangedAllAt(Changed(m, keys[0], values[keys[0]]), keys[1..], values, name);
      assert keys == [keys[0]] + keys[1..];
    }
  }

  /** Exactly the requested variables changed, each to its value or away, and universal ones are untouched. */
  ghost predicate ChangesExactly(values: Values, before: Environment, after: Environment) {
    && after.universal == before.universal
    && forall name: bytes ::
         if name in values then
           if values[name].Some? then name in after.exported && after.exported[name] == values[name].value
           else name !in after.exported
         else
           (name in after.exported <==> name in before.exported)
           && (name in before.exported ==> after.exported[name] == before.exported[name])
  }

  /** Running the commands that the script reads as makes exactly the requested changes. */
  lemma CommandsChangeExactly(shell: Shell, values: Values, e: Environment)
    requires forall key :: key in values ==> IsName(key)
    ensures var keys := SortedSeq(values.Keys);
            && (forall i :: 0 <= i < |keys| ==> keys[i] in values)
            && var after := ExecuteAll(shell, CommandsFor(shell, keys, values), e);
            after.Some? && ChangesExactly(values, e, after.value)
  {
    hide IsName, CommandsFor, SortedSeq, ExecuteAll, Less, ChangedAll;
    var keys := SortedSeq(values.Keys);
    assert forall i :: 0 <= i < |keys| ==> keys[i] in Elements(keys);
    ExecuteAllOf(shell, keys, values, e);
    forall name: bytes ensures name in keys <==> name in values {
      assert name in Elements(keys) <==> name in values.Keys;
    }
    var after := ChangedAll(e.exported, keys, values);
    forall name: bytes
      ensures if name in values then
                if values[name].Some? then name in after && after[name] == values[name].value else name !in after
              else (name in after <==> name in e.exported) && (name in e.exported ==> after[name] == e.exported[name])
    {
      ChangedAllAt(e.exported, keys, values, name);
    }
  }

  /** A name is a letter or underscore followed by letters, digits and underscores. */
  lemma NameExactly(name: bytes)
    ensures IsName(name) <==>
            && |name| > 0 && !('0' <= name[0] as char <= '9')
            && forall i :: 0 <= i < |name| ==>
                 var c := name[i] as char; c == '_' || 'a' <= c <= 'z' || 'A' <= c <= 'Z' || '0' <= c <= '9'
  {
  }
}
