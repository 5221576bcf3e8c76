/**
  `parse_env` (app.py): reads the text of a `.env` file line by line and
  builds the dictionary that becomes the `data` of a Kubernetes Secret,
  mapping each key to the base64 of the UTF-8 bytes of its value.

  A line is trimmed; a blank line or one starting with `#` is ignored; the
  first `=` splits it into key and value, or, when it has no `=`, the first
  `:`; a line with neither is skipped as well. The key is trimmed, and the
  value is trimmed and then loses every `"` at either end. A later line for
  the same key replaces the value and keeps the key's first position.
 */
module EnvParser {
  import opened Text
  import opened Wrappers
  import opened Dicts
  import Utf8
  import Base64

  /** What one line of the file contributes. */
  datatype Line =
    | Ignored                              // blank, or a comment
    | Unseparated                          // neither `=` nor `:`
    | Entry(key: string, value: string)    // key and cleaned value, before encoding

  /** The argument of `strip('"')`. */
  const Quote: set<char> := {'"'}

  // ---- One line ----

  /** The position of the first c in s. */
  function IndexOf(s: string, c: char): (i: nat)
    requires c in s
    ensures i < |s| && s[i] == c && c !in s[..i]
  {
    if s[0] == c then 0
    else
      var j := IndexOf(s[1..], c);
      assert s[..j + 1] == [s[0]] + s[1..][..j];
      1 + j
  }

  /** `line.split(sep, 1)` on a line that holds sep: the text before its
      first occurrence, and everything after it. */
  function SplitOnce(line: string, sep: char): (parts: (string, string))
    requires sep in line
    ensures line == parts.0 + [sep] + parts.1 && sep !in parts.0
  {
    var i := IndexOf(line, sep);
    assert line == line[..i] + [sep] + line[i + 1..];
    (line[..i], line[i + 1..])
  }

  /** `value.strip().strip('"')` */
  function CleanValue(v: string): string {
    Strip(Strip(v, Whitespace), Quote)
  }

  function EntryOf(parts: (string, string)): Line {
    Entry(Strip(parts.0, Whitespace), CleanValue(parts.1))
  }

  /** The decision `parse_env` makes for one line, `=` before `:`. */
  function Classify(raw: string): Line {
    var line := Strip(raw, Whitespace);
    if line == [] || line[0] == '#' then Ignored
    else if '=' in line then EntryOf(SplitOnce(line, '='))
    else if ':' in line then EntryOf(SplitOnce(line, ':'))
    else Unseparated
  }

  // ---- Values ----

  /** `base64.b64encode(value.encode()).decode()` */
  function EncodeValue(v: string): string {
    Base64.Encode(Utf8.Encode(v))
  }

  /** What a consumer of the Secret does with a stored value: strict base64,
      then strict UTF-8. */
  function DecodeValue(s: string): Option<string> {
    match Base64.Decode(s)
    case None => None
    case Some(b) => Utf8.Decode(b)
  }

  // ---- The whole file ----

  /** The dictionary after one more classified line. */
  function Insert(d: Dict<string, string>, l: Line): (r: Dict<string, string>)
    requires d.Valid()
    ensures r.Valid()
  {
    match l
    case Entry(k, v) => d.Put(k, EncodeValue(v))
    case _ => d
  }

  /** The dictionary after the given classified lines, in order. */
  function Collect(ls: seq<Line>): (d: Dict<string, string>)
    ensures d.Valid()
    decreases |ls|
  {
    if ls == [] then Empty() else Insert(Collect(ls[..|ls| - 1]), ls[|ls| - 1])
  }

  lemma CollectNext(ls: seq<Line>, n: nat)
    requires n < |ls|
    ensures Collect(ls[..n + 1]) == Insert(Collect(ls[..n]), ls[n])
  {
    assert ls[..n + 1][..n] == ls[..n];
  }

  /** Each line, classified. */
  function ClassifyAll(lines: seq<string>): seq<Line> {
    seq(|lines|, n requires 0 <= n < |lines| => Classify(lines[n]))
  }

  /** What `parse_env` returns for the given text. */
  function EnvFile(content: string): Dict<string, string> {
    Collect(ClassifyAll(SplitLines(content)))
  }

  /** `parse_env(env_content)`, statement by statement. */
  method ParseEnv(envContent: string) returns (envDict: Dict<string, string>)
    ensures envDict.Valid() && envDict == EnvFile(envContent)
  {
    envDict := Empty();
    var lines := SplitLines(envContent);
    ghost var classified := ClassifyAll(lines);
    for n := 0 to |lines|
      invariant envDict == Collect(classified[..n])
    {
      CollectNext(classified, n);
      var line := Strip(lines[n], Whitespace);
      if line == [] || line[0] == '#' {
        continue;
      }
      var key, value;
      if '=' in line {
        var parts := SplitOnce(line, '=');
        key, value := parts.0, parts.1;
      } else if ':' in line {
        var parts := SplitOnce(line, ':');
        key, value := parts.0, parts.1;
      } else {
        continue;
      }
      key, value := Strip(key, Whitespace), Strip(Strip(value, Whitespace), Quote);
      assert Classify(lines[n]) == Entry(key, value);
      envDict := envDict.Put(key, EncodeValue(value));
    }
    assert classified[..|lines|] == classified;
  }

  // ---- Properties of one line ----

  /** Only blanks. */
  ghost predicate IsBlank(raw: string) {
    AllOf(raw, Whitespace)
  }

  /** The first character that is not blank is `#`. */
  ghost predicate IsComment(raw: string) {
    exists i :: 0 <= i < |raw| && AllOf(raw[..i], Whitespace) && raw[i] == '#'
  }

  /** Neither strip removes `#`, `=` or `:`. */
  lemma Kept()
    ensures '#' !in Whitespace && '=' !in Whitespace && ':' !in Whitespace
    ensures '=' !in Quote && ':' !in Quote
  {
  }

  /** Blank lines and comments, and only those, are ignored. */
  lemma IgnoredLines(raw: string)
    ensures Classify(raw) == Ignored <==> IsBlank(raw) || IsComment(raw)
  {
    var line := Strip(raw, Whitespace);
    IgnoredWhen(raw, line);
    StripEmpty(raw, Whitespace);
    if line != [] {
      CommentWhen(raw, line);
    }
  }

  lemma IgnoredWhen(raw: string, line: string)
    requires line == Strip(raw, Whitespace)
    ensures Classify(raw) == Ignored <==> line == [] || line[0] == '#'
  {
  }

  /** A stripped line starts with `#` exactly when the first character that
      is not blank is `#`. */
  lemma CommentWhen(raw: string, line: string)
    requires line == Strip(raw, Whitespace) && line != []
    ensures line[0] == '#' <==> IsComment(raw)
  {
    if line[0] == '#' {
      StripIsBlock(raw, Whitespace);
      var i :| IsBlock(raw, line, i, Whitespace);
      BlockComment(raw, line, i);
    }
    if IsComment(raw) {
      var j :| 0 <= j < |raw| && AllOf(raw[..j], Whitespace) && raw[j] == '#';
      Kept();
      StripStart(raw, Whitespace, j);
    }
  }

  lemma BlockComment(raw: string, line: string, i: int)
    requires IsBlock(raw, line, i, Whitespace) && line != [] && line[0] == '#'
    ensures IsComment(raw)
  {
    assert raw[i] == line[0];
  }

  /** A line that is neither ignored nor holds `=` or `:` is skipped. */
  lemma UnseparatedLines(raw: string)
    ensures Classify(raw) == Unseparated <==>
      !IsBlank(raw) && !IsComment(raw) && '=' !in raw && ':' !in raw
  {
    IgnoredLines(raw);
    KeptByStrip(raw, Strip(raw, Whitespace));
  }

  /** SplitOnce is determined by its contract: the split is at the first sep. */
  lemma SplitOnceUnique(a: string, b: string, sep: char)
    requires sep !in a
    ensures SplitOnce(a + [sep] + b, sep) == (a, b)
  {
    var line := a + [sep] + b;
    var (x, y) := SplitOnce(line, sep);
    assert forall k :: 0 <= k < |x| ==> line[k] == x[k];
    assert forall k :: 0 <= k < |a| ==> line[k] == a[k];
    assert line[|x|] == sep && line[|a|] == sep;
    assert |x| == |a|;
    assert x == line[..|a|] == a;
    assert y == line[|a| + 1..] == b;
  }

  /** The three ways Classify reads a line that is not ignored. */
  lemma ClassifyBySeparator(raw: string, line: string)
    requires line == Strip(raw, Whitespace) && line != [] && line[0] != '#'
    ensures '=' in line ==> Classify(raw) == EntryOf(SplitOnce(line, '='))
    ensures '=' !in line && ':' in line ==> Classify(raw) == EntryOf(SplitOnce(line, ':'))
    ensures '=' !in line && ':' !in line ==> Classify(raw) == Unseparated
  {
  }

  /** A line `key=value`, with blanks around it: the first `=` splits it. */
  lemma AssignmentLine(p: string, a: string, b: string, q: string)
    requires IsBlank(p) && IsBlank(q) && Trimmed(a + "=" + b, Whitespace)
    requires '=' !in a && (a == [] || a[0] != '#')
    ensures Classify(p + a + "=" + b + q) == Entry(Strip(a, Whitespace), CleanValue(b))
  {
    var line := a + "=" + b;
    var raw := p + a + "=" + b + q;
    assert raw == p + line + q;
    StripUnique(p, line, q, Whitespace);
    assert line[|a|] == '=';
    ClassifyBySeparator(raw, line);
    SplitOnceUnique(a, b, '=');
  }

  /** A line `key:value` without `=`, with blanks around it: the first `:` splits it. */
  lemma ColonLine(p: string, a: string, b: string, q: string)
    requires IsBlank(p) && IsBlank(q) && Trimmed(a + ":" + b, Whitespace)
    requires ':' !in a && '=' !in a && '=' !in b && (a == [] || a[0] != '#')
    ensures Classify(p + a + ":" + b + q) == Entry(Strip(a, Whitespace), CleanValue(b))
  {
    var line := a + ":" + b;
    var raw := p + a + ":" + b + q;
    assert raw == p + line + q;
    StripUnique(p, line, q, Whitespace);
    assert line[|a|] == ':';
    NotInJoined(a, ':', b, '=');
    ClassifyBySeparator(raw, line);
    SplitOnceUnique(a, b, ':');
  }

  lemma NotInJoined(a: string, sep: char, b: string, c: char)
    requires c !in a && c != sep && c !in b
    ensures c !in a + [sep] + b
  {
  }

  /** The value is trimmed, then loses every `"` at either end, and nothing
      else: blanks inside the quotes, single quotes and `#` are kept. */
  lemma CleanValueOf(p: string, qa: string, m: string, qb: string, q: string)
    requires IsBlank(p) && IsBlank(q) && Trimmed(qa + m + qb, Whitespace)
    requires AllOf(qa, Quote) && AllOf(qb, Quote) && Trimmed(m, Quote)
    ensures CleanValue(p + qa + m + qb + q) == m
  {
    assert p + qa + m + qb + q == p + (qa + m + qb) + q;
    StripUnique(p, qa + m + qb, q, Whitespace);
    StripUnique(qa, m, qb, Quote);
  }

  /** What an accepted key and value look like: the key is trimmed and holds
      no `=`, and the value neither starts nor ends with `"`. */
  lemma EntryFields(raw: string)
    requires Classify(raw).Entry?
    ensures Trimmed(Classify(raw).key, Whitespace) && Trimmed(Classify(raw).value, Quote)
    ensures '=' !in Classify(raw).key
  {
    var line := Strip(raw, Whitespace);
    var sep := if '=' in line then '=' else ':';
    AcceptedLine(raw);
    SplitAt(raw, line, sep);
    FieldsOf(Classify(raw), line, sep);
  }

  /** A line without `=` is split at its first `:`: the key holds no `:`,
      and neither key nor value holds `=`. */
  lemma ColonEntryFields(raw: string)
    requires Classify(raw).Entry? && '=' !in raw
    ensures ':' in raw && ':' !in Classify(raw).key && '=' !in Classify(raw).value
  {
    var line := Strip(raw, Whitespace);
    AcceptedLine(raw);
    KeptByStrip(raw, line);
    SplitAt(raw, line, ':');
    FieldsOf(Classify(raw), line, ':');
  }

  lemma KeptByStrip(raw: string, line: string)
    requires line == Strip(raw, Whitespace)
    ensures '=' in line <==> '=' in raw
    ensures ':' in line <==> ':' in raw
  {
    Kept();
    StripKeeps(raw, Whitespace, '=');
    StripKeeps(raw, Whitespace, ':');
  }

  lemma AcceptedLine(raw: string)
    requires Classify(raw).Entry?
    ensures var line := Strip(raw, Whitespace); line != [] && line[0] != '#' && ('=' in line || ':' in line)
  {
  }

  /** The accepted line is split at the separator Classify chose. */
  lemma SplitAt(raw: string, line: string, sep: char)
    requires line == Strip(raw, Whitespace) && line != [] && line[0] != '#'
    requires sep in line && (sep == '=' || (sep == ':' && '=' !in line))
    ensures Classify(raw) == EntryOf(SplitOnce(line, sep))
  {
    ClassifyBySeparator(raw, line);
  }

  lemma FieldsOf(e: Line, line: string, sep: char)
    requires sep in line && (sep == '=' || (sep == ':' && '=' !in line))
    requires e == EntryOf(SplitOnce(line, sep))
    ensures Trimmed(e.key, Whitespace) && Trimmed(e.value, Quote)
    ensures sep !in e.key && '=' !in e.key
    ensures sep == ':' ==> '=' !in e.value
  {
    var parts := SplitOnce(line, sep);
    var a, b := parts.0, parts.1;
    var v := Strip(b, Whitespace);
    assert e.key == Strip(a, Whitespace) && e.value == Strip(v, Quote);
    Kept();
    NotInStripped(a, Whitespace, sep);
    if sep == ':' {
      NotInParts(line, a, b, sep, '=');
      NotInStripped(a, Whitespace, '=');
      NotInStripped(b, Whitespace, '=');
      NotInStripped(v, Quote, '=');
    }
  }

  lemma NotInParts(line: string, a: string, b: string, sep: char, c: char)
    requires line == a + [sep] + b && c !in line
    ensures c !in a && c !in b
  {
    assert forall k :: 0 <= k < |a| ==> a[k] == line[k];
    assert forall k :: 0 <= k < |b| ==> b[k] == line[|a| + 1 + k];
  }

  lemma NotInStripped(s: string, drop: set<char>, c: char)
    requires c !in drop && c !in s
    ensures c !in Strip(s, drop)
  {
    StripKeeps(s, drop, c);
  }

  // ---- Properties of stored values ----

  /** A stored value decodes back to the cleaned value. */
  lemma StoredValueDecodes(v: string)
    ensures DecodeValue(EncodeValue(v)) == Some(v)
  {
    Base64.DecodeEncode(Utf8.Encode(v));
    Utf8.DecodeEncode(v);
  }

  /** Every string that decodes is the stored form of what it decodes to. */
  lemma StoredValueCanonical(s: string)
    requires DecodeValue(s).Some?
    ensures EncodeValue(DecodeValue(s).value) == s
  {
    var b := Base64.Decode(s).value;
    Base64.EncodeDecode(s);
    Utf8.EncodeDecode(b);
  }

  /** A stored value has 4 * ceil(n / 3) characters from the base64 alphabet
      and `=`, where n is the number of UTF-8 bytes of the value. */
  lemma StoredValueShape(v: string)
    ensures |EncodeValue(v)| == 4 * ((|Utf8.Encode(v)| + 2) / 3)
    ensures forall i :: 0 <= i < |EncodeValue(v)| ==>
      Base64.IsAlphabetChar(EncodeValue(v)[i]) || EncodeValue(v)[i] == '='
  {
    Base64.EncodeLength(Utf8.Encode(v));
    Base64.EncodeAlphabet(Utf8.Encode(v));
  }

  // ---- Properties of the whole file ----

  /** Line n is accepted and has key k. */
  predicate Defines(ls: seq<Line>, n: nat, k: string) {
    n < |ls| && ls[n].Entry? && ls[n].key == k
  }

  /** Some line defines a before any line defines b. */
  ghost predicate DefinedFirst(ls: seq<Line>, a: string, b: string) {
    exists n :: 0 <= n < |ls| && Defines(ls, n, a) && forall m :: 0 <= m <= n ==> !Defines(ls, m, b)
  }

  /** The keys of the dictionary are exactly the keys of the accepted lines. */
  lemma {:induction false} KeySet(ls: seq<Line>, k: string)
    ensures k in Collect(ls).entries <==> exists n :: 0 <= n < |ls| && Defines(ls, n, k)
    decreases |ls|
  {
    if ls != [] {
      var last := |ls| - 1;
      var init := ls[..last];
      KeySet(init, k);
      InsertKeys(Collect(init), ls[last], k);
      assert Collect(ls) == Insert(Collect(init), ls[last]);
      if k in Collect(ls).entries {
        if Defines(ls, last, k) {
        } else {
          var n :| 0 <= n < last && Defines(init, n, k);
          assert Defines(ls, n, k);
        }
      }
      if exists n :: 0 <= n < |ls| && Defines(ls, n, k) {
        var n :| 0 <= n < |ls| && Defines(ls, n, k);
        if n < last {
          assert Defines(init, n, k);
        }
      }
    }
  }

  /** A line adds its own key to the dictionary and no other. */
  lemma InsertKeys(d: Dict<string, string>, l: Line, k: string)
    requires d.Valid()
    ensures k in Insert(d, l).entries <==> k in d.entries || (l.Entry? && l.key == k)
  {
  }

  /** Last write wins: the value stored under a key comes from the last line
      that defines it. */
  lemma {:induction false} LastWins(ls: seq<Line>, n: nat)
    requires n < |ls| && ls[n].Entry?
    requires forall m :: n < m < |ls| ==> !Defines(ls, m, ls[n].key)
    ensures ls[n].key in Collect(ls).entries
    ensures Collect(ls).entries[ls[n].key] == EncodeValue(ls[n].value)
    decreases |ls|
  {
    var last := |ls| - 1;
    var init := ls[..last];
    if n < last {
      assert !Defines(ls, last, ls[n].key);
      assert forall m :: n < m < last ==> (Defines(init, m, ls[n].key) <==> Defines(ls, m, ls[n].key));
      LastWins(init, n);
    }
  }

  /** Every stored value is the encoding of the cleaned value of a line
      that defines its key. */
  lemma {:induction false} StoredValues(ls: seq<Line>, k: string)
    requires k in Collect(ls).entries
    ensures exists n :: 0 <= n < |ls| && Defines(ls, n, k) && Collect(ls).entries[k] == EncodeValue(ls[n].value)
    decreases |ls|
  {
    var last := |ls| - 1;
    var init := ls[..last];
    if !Defines(ls, last, k) {
      StoredValues(init, k);
      var n :| 0 <= n < last && Defines(init, n, k) && Collect(init).entries[k] == EncodeValue(init[n].value);
      assert Defines(ls, n, k);
    }
  }

  /** Every value of the dictionary decodes, as base64 and then UTF-8, to
      the cleaned value of a line that defines its key. */
  lemma DictionaryDecodes(ls: seq<Line>, k: string)
    requires k in Collect(ls).entries
    ensures exists n :: 0 <= n < |ls| && Defines(ls, n, k) && DecodeValue(Collect(ls).entries[k]) == Some(ls[n].value)
  {
    StoredValues(ls, k);
    var n :| 0 <= n < |ls| && Defines(ls, n, k) && Collect(ls).entries[k] == EncodeValue(ls[n].value);
    StoredValueDecodes(ls[n].value);
  }

  /** Of any two keys, the one listed first was defined first. */
  ghost predicate InDefinitionOrder(ls: seq<Line>, keys: seq<string>) {
    forall i, j :: 0 <= i < j < |keys| ==> DefinedFirst(ls, keys[i], keys[j])
  }

  /** The keys are listed in the order of their first definition (and, the
      dictionary being Valid, once each). */
  lemma {:induction false} KeyOrder(ls: seq<Line>)
    ensures InDefinitionOrder(ls, Collect(ls).keys)
    decreases |ls|
  {
    if ls != [] {
      var keys := Collect(ls).keys;
      KeyOrder(ls[..|ls| - 1]);
      forall i, j | 0 <= i < j < |keys|
        ensures DefinedFirst(ls, keys[i], keys[j])
      {
        OrderStep(ls, i, j);
      }
    }
  }

  lemma OrderStep(ls: seq<Line>, i: nat, j: nat)
    requires ls != []
    requires InDefinitionOrder(ls[..|ls| - 1], Collect(ls[..|ls| - 1]).keys)
    requires i < j < |Collect(ls).keys|
    ensures DefinedFirst(ls, Collect(ls).keys[i], Collect(ls).keys[j])
  {
    var init := ls[..|ls| - 1];
    var before, after := Collect(init), Collect(ls);
    assert after == Insert(before, ls[|ls| - 1]);
    if j < |before.keys| {
      assert before.keys[i] == after.keys[i] && before.keys[j] == after.keys[j];
      OrderKept(ls, before.keys[i], before.keys[j]);
    } else {
      // the last key is the one the last line added: no earlier line defines it
      assert after.keys == before.keys + [after.keys[j]];
      OrderAppended(ls, before, after.keys[i], after.keys[j]);
    }
  }

  lemma OrderKept(ls: seq<Line>, a: string, b: string)
    requires ls != [] && DefinedFirst(ls[..|ls| - 1], a, b)
    ensures DefinedFirst(ls, a, b)
  {
    var init := ls[..|ls| - 1];
    var n :| 0 <= n < |init| && Defines(init, n, a) && forall m :: 0 <= m <= n ==> !Defines(init, m, b);
    assert Defines(ls, n, a);
    forall m | 0 <= m <= n
      ensures !Defines(ls, m, b)
    {
      assert !Defines(init, m, b);
    }
  }

  lemma OrderAppended(ls: seq<Line>, before: Dict<string, string>, a: string, b: string)
    requires ls != [] && before == Collect(ls[..|ls| - 1])
    requires a in before.keys && b !in before.keys
    ensures DefinedFirst(ls, a, b)
  {
    var init := ls[..|ls| - 1];
    KeySet(init, a);
    KeySet(init, b);
    var n :| 0 <= n < |init| && Defines(init, n, a);
    assert Defines(ls, n, a);
    forall m | 0 <= m <= n
      ensures !Defines(ls, m, b)
    {
      assert !Defines(init, m, b);
    }
  }
}
