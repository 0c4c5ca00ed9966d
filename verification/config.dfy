/**
 * The `GET /config` handler of server.js: the text of `config.txt` is cut into
 * lines, every line of the form `key=value` with a non-empty raw key and a
 * non-empty raw value contributes `trim(key) -> trim(value)`, and a later line
 * overwrites an earlier one with the same trimmed key. A failed read answers
 * with status 500 and a fixed message instead.
 */
module ConfigEndpoint {
  import opened JsString

  /** The message sent to the client when the configuration file cannot be read. */
  const ReadFailureMessage: string := "Failed to read config file"

  /** What reading `config.txt` produced: its text, or an error whose detail is only logged. */
  datatype ReadResult = ReadOk(data: string) | ReadFailed(detail: string)

  datatype Body = ConfigBody(config: map<string, string>) | ErrorBody(error: string)

  datatype Response = Response(status: int, body: Body)

  datatype Option<T> = None | Some(value: T)

  /** One stored configuration entry, already trimmed. */
  datatype Entry = Entry(key: string, value: string)

  /**
   * `const [key, value] = line.split('=')` followed by `if (key && value)`:
   * the first two pieces of the line, kept only when the line has a second
   * piece and both raw pieces are non-empty; the stored entry is trimmed.
   */
  function ParseLine(line: string): (r: Option<Entry>)
  {
    var parts := Split(line, '=');
    if |parts| >= 2 && parts[0] != [] && parts[1] != [] then
      Some(Entry(Trim(parts[0]), Trim(parts[1])))
    else
      None
  }

  /** `line` stores an entry under the trimmed key `k`. */
  predicate Defines(line: string, k: string)
  {
    ParseLine(line).Some? && ParseLine(line).value.key == k
  }

  /** `data.split('\n')`: a carriage return before a line feed stays in the line. */
  function Lines(data: string): (ls: seq<string>)
    ensures |ls| >= 1 && forall l :: l in ls ==> '\n' !in l
    ensures Join(ls, '\n') == data
  {
    Split(data, '\n')
  }

  /** `f` applied to each element of `s`, in order. */
  function MapSeq<A, B>(f: A -> B, s: seq<A>): (r: seq<B>)
    ensures |r| == |s| && forall i :: 0 <= i < |s| ==> r[i] == f(s[i])
  {
    seq(|s|, i requires 0 <= i < |s| => f(s[i]))
  }

  /** What each line stores, in line order. */
  function Parsed(ls: seq<string>): (es: seq<Option<Entry>>)
    ensures |es| == |ls|
  {
    MapSeq(ParseLine, ls)
  }

  /** `e` is an entry under the key `k`. */
  predicate StoresKey(e: Option<Entry>, k: string)
  {
    e.Some? && e.value.key == k
  }

  /**
   * The configuration object after the entries `es` have been assigned in
   * order, starting from the empty object: `config[key] = value` overwrites.
   */
  function Store(es: seq<Option<Entry>>): map<string, string>
    decreases |es|
  {
    if es == [] then map[]
    else
      var config := Store(es[..|es| - 1]);
      match es[|es| - 1]
      case None => config
      case Some(e) => config[e.key := e.value]
  }

  /** The configuration object built from the lines `ls`. */
  function ConfigOf(ls: seq<string>): map<string, string>
  {
    Store(Parsed(ls))
  }

  /**
   * The body of the `forEach` over the lines: the configuration object is
   * filled in place, one line after the other.
   */
  method ParseConfig(data: string) returns (config: map<string, string>)
    ensures config == ConfigOf(Lines(data))
  {
    var lines := Lines(data);
    ghost var es := Parsed(lines);
    config := map[];
    for i := 0 to |lines|
      invariant config == Store(es[..i])
    {
      var parsed := ParseLine(lines[i]);
      StoreStep(es, i);
      if parsed.Some? {
        config := config[parsed.value.key := parsed.value.value];
      }
    }
    assert es[..|lines|] == es;
  }

  /** One more entry: the object so far, with that entry's assignment, if any. */
  lemma StoreStep(es: seq<Option<Entry>>, i: nat)
    requires i < |es|
    ensures Store(es[..i + 1]) == match es[i]
                                  case None => Store(es[..i])
                                  case Some(e) => Store(es[..i])[e.key := e.value]
  {
    assert es[..i + 1][..i] == es[..i];
  }

  /**
   * The `/config` route after the file read: a failed read gives status 500
   * with the fixed error message (the error detail is never sent), a
   * successful read gives status 200 with the parsed configuration.
   */
  method HandleConfig(read: ReadResult) returns (response: Response)
    ensures read.ReadFailed? ==> response == Response(500, ErrorBody(ReadFailureMessage))
    ensures read.ReadOk? ==> response.status == 200 && response.body.ConfigBody?
    ensures read.ReadOk? ==> response.body.config == ConfigOf(Lines(read.data))
  {
    match read
    case ReadFailed(_) =>
      response := Response(500, ErrorBody(ReadFailureMessage));
    case ReadOk(data) =>
      var config := ParseConfig(data);
      response := Response(200, ConfigBody(config));
  }

  // ---------------------------------------------------------------------------
  // One line

  /**
   * Every line that holds an '=' is `key + "=" + value + rest`, where `key`
   * and `value` hold no '=' and `rest` is empty or starts with the second '='.
   * Such a line stores `Trim(key) -> Trim(value)` exactly when both raw pieces
   * are non-empty; whatever follows a second '=' is dropped.
   */
  lemma {:induction false} ParseLineFields(key: string, value: string, rest: string)
    requires '=' !in key && '=' !in value
    requires rest == [] || rest[0] == '='
    ensures ParseLine(key + "=" + value + rest)
         == if key != [] && value != [] then Some(Entry(Trim(key), Trim(value))) else None
  {
    var line := key + "=" + value + rest;
    if rest == [] {
      assert line == key + ['='] + value;
      SplitAtFirstSep(key, '=', value);
      SplitNoSep(value, '=');
    } else {
      var tail := rest[1..];
      assert line == key + ['='] + (value + ['='] + tail);
      SplitAtFirstSep(key, '=', value + ['='] + tail);
      SplitAtFirstSep(value, '=', tail);
    }
  }

  /** A line without '=' has no value piece and stores nothing. */
  lemma ParseLineNoSeparator(line: string)
    requires '=' !in line
    ensures ParseLine(line) == None
  {
    SplitNoSep(line, '=');
  }

  /**
   * The truthiness test runs on the raw value, so a value of whitespace only
   * (a lone carriage return from a CRLF file among them) is stored as `""`.
   */
  lemma ParseLineBlankValue(key: string, value: string)
    requires '=' !in key && '=' !in value && key != []
    requires value != [] && AllWhitespace(value)
    ensures ParseLine(key + "=" + value) == Some(Entry(Trim(key), []))
  {
    ParseLineFields(key, value, []);
    assert key + "=" + value + [] == key + "=" + value;
  }

  // ---------------------------------------------------------------------------
  // Examples named by the behaviour of the code

  /** Text after a second '=' is discarded: `a=b=c` stores `a -> b`. */
  lemma ExampleSecondSeparator(a: char, b: char, c: char)
    requires a != '=' && b != '=' && !IsWhitespace(a) && !IsWhitespace(b)
    ensures ParseLine([a, '=', b, '=', c]) == Some(Entry([a], [b]))
  {
    var key, value, rest := [a], [b], ['=', c];
    assert [a, '=', b, '=', c] == key + "=" + value + rest;
    ParseLineFields(key, value, rest);
    TrimUnchanged(key);
    TrimUnchanged(value);
  }

  /** The emptiness check sees the raw value: `k= ` stores `k -> ""`. */
  lemma ExampleBlankValue(k: char, w: char)
    requires k != '=' && !IsWhitespace(k) && IsWhitespace(w)
    ensures ParseLine([k, '=', w]) == Some(Entry([k], []))
  {
    ParseLineBlankValue([k], [w]);
    assert [k, '=', w] == [k] + "=" + [w];
    TrimUnchanged([k]);
  }

  /** The emptiness check sees the raw key and value: ` = ` stores `"" -> ""`. */
  lemma ExampleBlankKeyAndValue(w: char, w': char)
    requires IsWhitespace(w) && IsWhitespace(w')
    ensures ParseLine([w, '=', w']) == Some(Entry([], []))
  {
    assert [w, '=', w'] == [w] + "=" + [w'] + [];
    ParseLineFields([w], [w'], []);
  }

  /** An empty raw key or an empty raw value stores nothing: `=v` and `k=`. */
  lemma ExampleEmptyPieces(k: char, v: char)
    requires k != '=' && v != '='
    ensures ParseLine(['=', v]) == None
    ensures ParseLine([k, '=']) == None
  {
    assert ['=', v] == [] + "=" + [v] + [];
    ParseLineFields([], [v], []);
    assert [k, '='] == [k] + "=" + [] + [];
    ParseLineFields([k], [], []);
  }

  // ---------------------------------------------------------------------------
  // All lines

  /** An absent entry changes nothing, wherever it stands. */
  lemma {:induction false} StoreSkip(before: seq<Option<Entry>>, after: seq<Option<Entry>>)
    ensures Store(before + [None] + after) == Store(before + after)
    decreases |after|
  {
    var s := before + [None] + after;
    var t := before + after;
    if after == [] {
      assert s[..|s| - 1] == before && s[|s| - 1] == None;
      assert t == before;
    } else {
      var init := after[..|after| - 1];
      StoreSkip(before, init);
      assert s[..|s| - 1] == before + [None] + init && s[|s| - 1] == after[|after| - 1];
      assert t[..|t| - 1] == before + init && t[|t| - 1] == after[|after| - 1];
    }
  }

  /** The last entry under a key decides its value. */
  lemma {:induction false} StoreLastWins(es: seq<Option<Entry>>, i: nat, k: string, v: string)
    requires i < |es| && es[i] == Some(Entry(k, v))
    requires forall j :: i < j < |es| ==> !StoresKey(es[j], k)
    ensures k in Store(es) && Store(es)[k] == v
    decreases |es|
  {
    var init := es[..|es| - 1];
    if i < |es| - 1 {
      assert !StoresKey(es[|es| - 1], k);
      StoreLastWins(init, i, k, v);
    }
  }

  /** Every stored key has an entry, the last one under that key, that gave it its value. */
  lemma {:induction false} StoreKeySource(es: seq<Option<Entry>>, k: string)
    requires k in Store(es)
    ensures exists i :: 0 <= i < |es| && es[i] == Some(Entry(k, Store(es)[k]))
                      && forall j :: i < j < |es| ==> !StoresKey(es[j], k)
    decreases |es|
  {
    var n := |es| - 1;
    var init := es[..n];
    if !StoresKey(es[n], k) {
      assert k in Store(init) && Store(init)[k] == Store(es)[k];
      StoreKeySource(init, k);
      var i :| 0 <= i < |init| && init[i] == Some(Entry(k, Store(init)[k]))
             && forall j :: i < j < |init| ==> !StoresKey(init[j], k);
      assert es[i] == init[i];
      forall j | i < j < |es| ensures !StoresKey(es[j], k) {
        if j < n { assert es[j] == init[j]; }
      }
    }
  }

  /** Every key that has an entry is stored. */
  lemma {:induction false} StoreHasKey(es: seq<Option<Entry>>, i: nat, k: string)
    requires i < |es| && StoresKey(es[i], k)
    ensures k in Store(es)
    decreases |es|
  {
    var init := es[..|es| - 1];
    if i < |es| - 1 {
      assert init[i] == es[i];
      StoreHasKey(init, i, k);
    }
  }

  /** Each entry adds at most one key. */
  lemma {:induction false} StoreSize(es: seq<Option<Entry>>)
    ensures |Store(es)| <= |es|
    decreases |es|
  {
    if es != [] {
      var init := es[..|es| - 1];
      StoreSize(init);
      var config := Store(init);
      match es[|es| - 1]
      case None =>
      case Some(e) =>
        assert config[e.key := e.value].Keys == config.Keys + {e.key};
    }
  }

  /** Mapping over two sequences one after the other. */
  lemma MapSeqAppend<A, B>(f: A -> B, a: seq<A>, b: seq<A>)
    ensures MapSeq(f, a + b) == MapSeq(f, a) + MapSeq(f, b)
  {
    var l, r := MapSeq(f, a + b), MapSeq(f, a) + MapSeq(f, b);
    forall i | 0 <= i < |a + b| ensures l[i] == r[i] {
      if i < |a| {
        assert (a + b)[i] == a[i];
      } else {
        assert (a + b)[i] == b[i - |a|];
      }
    }
  }

  /** Parsing the lines of two texts one after the other. */
  lemma ParsedAppend(a: seq<string>, b: seq<string>)
    ensures Parsed(a + b) == Parsed(a) + Parsed(b)
  {
    MapSeqAppend(ParseLine, a, b);
  }

  /** A line that stores nothing changes nothing, wherever it stands. */
  lemma ConfigOfSkip(before: seq<string>, line: string, after: seq<string>)
    requires ParseLine(line) == None
    ensures ConfigOf(before + [line] + after) == ConfigOf(before + after)
  {
    ParsedAppend(before, [line]);
    ParsedAppend(before + [line], after);
    ParsedAppend(before, after);
    assert Parsed([line]) == [None];
    StoreSkip(Parsed(before), Parsed(after));
  }

  /**
   * The last line that stores a key decides its value: if line `i` stores
   * `k -> v` and no later line stores `k`, the configuration maps `k` to `v`.
   */
  lemma ConfigOfLastWins(ls: seq<string>, i: nat, k: string, v: string)
    requires i < |ls| && ParseLine(ls[i]) == Some(Entry(k, v))
    requires forall j :: i < j < |ls| ==> !Defines(ls[j], k)
    ensures k in ConfigOf(ls) && ConfigOf(ls)[k] == v
  {
    StoreLastWins(Parsed(ls), i, k, v);
  }

  /**
   * Every key of the configuration comes from some line, and its value is
   * the trimmed value of the last line that stores that key.
   */
  lemma ConfigOfKeySource(ls: seq<string>, k: string)
    requires k in ConfigOf(ls)
    ensures exists i :: 0 <= i < |ls| && ParseLine(ls[i]) == Some(Entry(k, ConfigOf(ls)[k]))
                      && forall j :: i < j < |ls| ==> !Defines(ls[j], k)
  {
    var es := Parsed(ls);
    StoreKeySource(es, k);
    var i :| 0 <= i < |es| && es[i] == Some(Entry(k, Store(es)[k]))
           && forall j :: i < j < |es| ==> !StoresKey(es[j], k);
    assert ParseLine(ls[i]) == es[i];
    forall j | i < j < |ls| ensures !Defines(ls[j], k) {
      assert ParseLine(ls[j]) == es[j];
    }
  }

  /** The keys of the configuration are exactly the trimmed keys some line stores. */
  lemma ConfigOfKeys(ls: seq<string>, k: string)
    ensures k in ConfigOf(ls) <==> exists i :: 0 <= i < |ls| && Defines(ls[i], k)
  {
    if k in ConfigOf(ls) {
      ConfigOfKeySource(ls, k);
    }
    if exists i :: 0 <= i < |ls| && Defines(ls[i], k) {
      var i :| 0 <= i < |ls| && Defines(ls[i], k);
      StoreHasKey(Parsed(ls), i, k);
    }
  }

  /** Text in which no line stores an entry, the empty text among them, gives the empty configuration. */
  lemma ConfigOfNothingStored(ls: seq<string>)
    requires forall i :: 0 <= i < |ls| ==> ParseLine(ls[i]) == None
    ensures ConfigOf(ls) == map[]
  {
    forall k | k in ConfigOf(ls) ensures false {
      ConfigOfKeySource(ls, k);
    }
  }

  /** An empty `config.txt` is one empty line, which stores nothing: the answer is `{}`. */
  lemma ConfigOfEmptyText()
    ensures ConfigOf(Lines("")) == map[]
  {
    assert Lines("") == [""];
    ParseLineNoSeparator("");
    ConfigOfNothingStored([""]);
  }

  /** The configuration has at most as many keys as the text has lines. */
  lemma ConfigOfSize(ls: seq<string>)
    ensures |ConfigOf(ls)| <= |ls|
  {
    StoreSize(Parsed(ls));
  }
}
