/**
 Trust on first use (crates/nosh-auth/src/keys.rs and verifier.rs): looking a host up in the
 known_hosts file, appending to it, and the verifier's policies. Calls are sequential and file
 operations succeed; a missing file is the empty one.
 */
module KnownHosts {
  import opened Wire

  type Key = seq<byte>

  /** Unicode White_Space, which Rust's `trim` and `char::is_whitespace` use. */
  predicate IsSpace(c: char) {
    var n := c as int;
    || 0x09 <= n <= 0x0D || n == 0x20 || n == 0x85 || n == 0xA0 || n == 0x1680 || 0x2000 <= n <= 0x200A
    || n == 0x2028 || n == 0x2029 || n == 0x202F || n == 0x205F || n == 0x3000
  }

  function TrimLeft(s: string): string {
    if s != "" && IsSpace(s[0]) then TrimLeft(s[1..]) else s
  }

  function TrimRight(s: string): string {
    if s != "" && IsSpace(s[|s| - 1]) then TrimRight(s[..|s| - 1]) else s
  }

  function Trim(s: string): string {
    TrimRight(TrimLeft(s))
  }

  /** `str::split` on one character. */
  function Split(s: string, sep: char): (parts: seq<string>)
    ensures parts != []
  {
    if s == "" then [""] else Prefix(s[0], sep, Split(s[1..], sep))
  }

  /** The parts of a text from those of its tail. */
  function Prefix(c: char, sep: char, parts: seq<string>): (r: seq<string>)
    requires parts != []
    ensures r != []
  {
    if c == sep then [""] + parts else [[c] + parts[0]] + parts[1..]
  }

  /** The index of the first white space, or the length. */
  function FirstSpace(s: string): (i: nat)
    ensures i <= |s|
    ensures i < |s| ==> IsSpace(s[i])
    ensures forall j :: 0 <= j < i ==> !IsSpace(s[j])
  {
    if s == "" || IsSpace(s[0]) then 0 else 1 + FirstSpace(s[1..])
  }

  /** OpenSSH public-key lines: the base64 part of each key, and the key of each line that parses. */
  datatype KeyCodec = KeyCodec(blobs: map<Key, string>, keys: map<string, Key>)

  const ALGORITHM := "ssh-ed25519"

  predicate NoSpace(s: string) {
    forall i :: 0 <= i < |s| ==> !IsSpace(s[i])
  }

  function KeyLine(codec: KeyCodec, k: Key): string
    requires k in codec.blobs
  {
    ALGORITHM + " " + codec.blobs[k]
  }

  /** Keys print without white space in the base64 part, and parse back. */
  predicate RoundTrips(codec: KeyCodec, k: Key)
    requires k in codec.blobs
  {
    && codec.blobs[k] != "" && NoSpace(codec.blobs[k])
    && KeyLine(codec, k) in codec.keys && codec.keys[KeyLine(codec, k)] == k
  }

  ghost predicate GoodCodec(codec: KeyCodec) {
    forall k :: k in codec.blobs ==> RoundTrips(codec, k)
  }

  // ---------- lookup and record ----------

  /** The key that one line pins for `host`. */
  function LineKey(codec: KeyCodec, line: string, host: string): (r: Option<Key>) {
    TrimmedKey(codec, Trim(line), host)
  }

  function TrimmedKey(codec: KeyCodec, t: string, host: string): (r: Option<Key>) {
    if t == "" || t[0] == '#' then None
    else
      var i := FirstSpace(t);
      if i == |t| then None
      else
        var keypart := Trim(t[i + 1..]);
        if host in Split(t[..i], ',') && keypart in codec.keys then Some(codec.keys[keypart]) else None
  }

  function FirstPin(codec: KeyCodec, lines: seq<string>, host: string): (r: Option<Key>) {
    if lines == [] then None
    else
      match LineKey(codec, lines[0], host)
      case Some(k) => Some(k)
      case None => FirstPin(codec, lines[1..], host)
  }

  function Lookup(codec: KeyCodec, content: string, host: string): (r: Option<Key>) {
    FirstPin(codec, Split(content, '\n'), host)
  }

  function Record(codec: KeyCodec, content: string, host: string, k: Key): string
    requires k in codec.blobs
  {
    content + (host + " " + KeyLine(codec, k)) + "\n"
  }

  // ---------- the verifier ----------

  /** `Interactive` with the outcome of the prompt. */
  datatype Policy = Silent | Interactive(yes: bool) | TrustKey(trusted: Key)

  predicate Allows(policy: Policy, k: Key) {
    match policy
    case Silent => true
    case Interactive(yes) => yes
    case TrustKey(trusted) => trusted == k
  }

  datatype Attempt = Attempt(host: string, presented: Option<Key>, policy: Policy)

  /** Whether the certificate is accepted, and the file afterwards. */
  function Verify(codec: KeyCodec, content: string, a: Attempt): (r: (bool, string)) {
    if a.presented.None? then (false, content)
    else
      var k := a.presented.value;
      match Lookup(codec, content, a.host)
      case Some(pinned) => (pinned == k, content)
      case None =>
        if Allows(a.policy, k) && k in codec.blobs then (true, Record(codec, content, a.host, k)) else (false, content)
  }

  class HostKeyVerifier {
    const codec: KeyCodec
    const host: string
    const policy: Policy
    var content: string

    constructor (codec: KeyCodec, host: string, policy: Policy, content: string)
      ensures this.codec == codec && this.host == host && this.policy == policy && this.content == content
    {
      this.codec, this.host, this.policy, this.content := codec, host, policy, content;
    }

    /** `lookup_known_host`. */
    method LookupKnownHost() returns (r: Option<Key>)
      ensures r == Lookup(codec, content, host)
    {
      var lines := Split(content, '\n');
      for n := 0 to |lines|
        invariant FirstPin(codec, lines, host) == FirstPin(codec, lines[n..], host)
      {
        assert lines[n..][1..] == lines[n + 1..];
        var line := Trim(lines[n]);
        if line == "" || line[0] == '#' {
          continue;
        }
        var i := FirstSpace(line);
        if i == |line| {
          continue;
        }
        var keypart := Trim(line[i + 1..]);
        if host in Split(line[..i], ',') {
          if keypart in codec.keys {
            return Some(codec.keys[keypart]);
          }
        }
      }
      return None;
    }

    /** `record_known_host`; a key that cannot be printed is an error before the file is opened. */
    method RecordKnownHost(k: Key) returns (ok: bool)
      modifies this
      ensures ok == (k in codec.blobs)
      ensures content == if ok then Record(codec, old(content), host, k) else old(content)
    {
      if k !in codec.blobs {
        return false;
      }
      var line := host + " " + KeyLine(codec, k);
      content := content + line + "\n";
      return true;
    }

    /** `verify_server_cert`. */
    method VerifyServerCert(presented: Option<Key>) returns (accepted: bool)
      modifies this
      ensures (accepted, content) == Verify(codec, old(content), Attempt(host, presented, policy))
    {
      if presented.None? {
        return false;
      }
      var pinned := LookupKnownHost();
      if pinned.Some? {
        return pinned.value == presented.value;
      }
      match policy {
        case Silent =>
        case Interactive(yes) => if !yes { return false; }
        case TrustKey(trusted) => if trusted != presented.value { return false; }
      }
      accepted := RecordKnownHost(presented.value);
    }
  }

  // ---------- splitting ----------

  lemma {:induction false} SplitAt(a: string, b: string, sep: char)
    ensures Split(a + [sep] + b, sep) == Split(a, sep) + Split(b, sep)
  {
    var s := a + [sep] + b;
    if a == "" {
      assert s[1..] == b;
    } else {
      SplitAt(a[1..], b, sep);
      assert s[0] == a[0] && s[1..] == a[1..] + [sep] + b;
      PrefixAppend(a[0], sep, Split(a[1..], sep), Split(b, sep));
    }
  }

  lemma PrefixAppend(c: char, sep: char, x: seq<string>, y: seq<string>)
    requires x != []
    ensures Prefix(c, sep, x + y) == Prefix(c, sep, x) + y
  {
    if c != sep {
      assert (x + y)[1..] == x[1..] + y;
    }
  }

  lemma {:induction false} SplitOne(s: string, sep: char)
    requires sep !in s
    ensures Split(s, sep) == [s]
  {
    if s != "" {
      SplitOne(s[1..], sep);
      assert [s[0]] + s[1..] == s;
    }
  }

  /** The parts hold only characters of the text, and not the separator. */
  lemma {:induction false} SplitParts(s: string, sep: char, part: string)
    requires part in Split(s, sep)
    ensures sep !in part && forall c :: c in part ==> c in s
  {
    if s != "" {
      var rest := Split(s[1..], sep);
      if s[0] == sep {
        if part != "" { SplitParts(s[1..], sep, part); }
      } else if part == [s[0]] + rest[0] {
        SplitParts(s[1..], sep, rest[0]);
      } else {
        assert part in rest[1..];
        SplitParts(s[1..], sep, part);
      }
    }
  }

  lemma {:induction false} FirstPinAppend(codec: KeyCodec, a: seq<string>, b: seq<string>, host: string)
    ensures FirstPin(codec, a + b, host) ==
            if FirstPin(codec, a, host).Some? then FirstPin(codec, a, host) else FirstPin(codec, b, host)
  {
    if a == [] {
      assert a + b == b;
    } else {
      FirstPinAppend(codec, a[1..], b, host);
      assert (a + b)[1..] == a[1..] + b;
    }
  }

  // ---------- what a recorded line pins ----------

  /** A host name that can stand alone in the first column. */
  predicate PlainHost(host: string) {
    host != "" && NoSpace(host) && ',' !in host && host[0] != '#'
  }

  lemma FirstSpaceAt(a: string, b: string)
    requires NoSpace(a)
    ensures FirstSpace(a + " " + b) == |a|
  {
    var s := a + " " + b;
    assert s[|a|] == ' ';
    assert forall j :: 0 <= j < |a| ==> s[j] == a[j];
  }

  lemma TrimNothing(s: string)
    requires s != "" && !IsSpace(s[0]) && !IsSpace(s[|s| - 1])
    ensures Trim(s) == s
  {}

  lemma WordHasNoNewline(word: string)
    requires NoSpace(word)
    ensures '\n' !in word
  {
    assert IsSpace('\n');
  }

  lemma KeyLineIsTrimmed(codec: KeyCodec, k: Key)
    requires k in codec.blobs && RoundTrips(codec, k)
    ensures var line := KeyLine(codec, k);
            line != "" && !IsSpace(line[0]) && !IsSpace(line[|line| - 1]) && '\n' !in line
  {
    var line, blob := KeyLine(codec, k), codec.blobs[k];
    assert line[0] == 's' && line[|line| - 1] == blob[|blob| - 1];
    WordHasNoNewline(blob);
  }

  /** The line recorded for a plain host pins its key for that host, and nothing for any other. */
  lemma RecordedLine(codec: KeyCodec, host: string, k: Key, other: string)
    requires PlainHost(host) && k in codec.blobs && RoundTrips(codec, k)
    ensures LineKey(codec, host + " " + KeyLine(codec, k), other) == if other == host then Some(k) else None
  {
    var keyLine := KeyLine(codec, k);
    var line := host + " " + keyLine;
    KeyLineIsTrimmed(codec, k);
    assert line[0] == host[0] && line[|line| - 1] == keyLine[|keyLine| - 1];
    TrimNothing(line);
    FirstSpaceAt(host, keyLine);
    assert line[..|host|] == host && line[|host| + 1..] == keyLine;
    TrimNothing(keyLine);
    SplitOne(host, ',');
  }

  /** A name with white space or a comma in it is never found. */
  lemma FoundNamesAreWords(codec: KeyCodec, line: string, host: string)
    requires LineKey(codec, line, host).Some?
    ensures NoSpace(host) && ',' !in host
  {
    var t := Trim(line);
    var token := t[..FirstSpace(t)];
    SplitParts(token, ',', host);
    forall i | 0 <= i < |host|
      ensures !IsSpace(host[i])
    {
      assert host[i] in token;
    }
  }

  lemma {:induction false} NeverPinned(codec: KeyCodec, lines: seq<string>, host: string)
    requires !NoSpace(host) || ',' in host
    ensures FirstPin(codec, lines, host) == None
  {
    if lines != [] {
      if LineKey(codec, lines[0], host).Some? { FoundNamesAreWords(codec, lines[0], host); }
      NeverPinned(codec, lines[1..], host);
    }
  }

  lemma KeyLineNamesNobody(codec: KeyCodec, k: Key)
    requires k in codec.blobs
    ensures TrimmedKey(codec, KeyLine(codec, k), "") == None
  {
    var line := KeyLine(codec, k);
    FirstSpaceAt(ALGORITHM, codec.blobs[k]);
    assert line[..|ALGORITHM|] == ALGORITHM;
    SplitOne(ALGORITHM, ',');
  }

  /** The remaining names that are not plain: the empty one, and one that makes the line a comment. */
  lemma RecordedLineIsLost(codec: KeyCodec, host: string, k: Key)
    requires !PlainHost(host) && NoSpace(host) && ',' !in host && k in codec.blobs && RoundTrips(codec, k)
    ensures LineKey(codec, host + " " + KeyLine(codec, k), host) == None
  {
    var keyLine := KeyLine(codec, k);
    var line := host + " " + keyLine;
    KeyLineIsTrimmed(codec, k);
    if host == "" {
      assert line[1..] == keyLine;
      assert TrimLeft(line) == TrimLeft(keyLine) == keyLine;
      TrimNothing(keyLine);
      KeyLineNamesNobody(codec, k);
    } else {
      assert line[0] == '#' && line[|line| - 1] == keyLine[|keyLine| - 1];
      TrimNothing(line);
    }
  }

  // ---------- appending ----------

  predicate Terminated(content: string) {
    content == "" || content[|content| - 1] == '\n'
  }

  lemma NoPinInEmptyLine(codec: KeyCodec, lines: seq<string>, host: string)
    ensures FirstPin(codec, lines + [""], host) == FirstPin(codec, lines, host)
  {
    FirstPinAppend(codec, lines, [""], host);
    assert [""][1..] == [];
    assert FirstPin(codec, [""], host) == None;
  }

  lemma LookupClosed(codec: KeyCodec, content: string, host: string)
    ensures Lookup(codec, content + "\n", host) == Lookup(codec, content, host)
  {
    SplitAt(content, "", '\n');
    assert content + ['\n'] + "" == content + "\n";
    NoPinInEmptyLine(codec, Split(content, '\n'), host);
  }

  /** In a terminated file the first pin stands, and appended lines only matter where there is none. */
  lemma LookupAppended(codec: KeyCodec, content: string, more: string, host: string)
    requires Terminated(content)
    ensures Lookup(codec, content + more, host) ==
            if Lookup(codec, content, host).Some? then Lookup(codec, content, host) else Lookup(codec, more, host)
  {
    if content == "" {
      assert content + more == more;
      assert FirstPin(codec, [""], host) == None by { NoPinInEmptyLine(codec, [], host); assert [] + [""] == [""]; }
    } else {
      var lines := content[..|content| - 1];
      assert content == lines + "\n" && content + more == lines + ['\n'] + more;
      LookupClosed(codec, lines, host);
      SplitAt(lines, more, '\n');
      FirstPinAppend(codec, Split(lines, '\n'), Split(more, '\n'), host);
    }
  }

  lemma OneLine(codec: KeyCodec, line: string, host: string)
    ensures FirstPin(codec, [line], host) == LineKey(codec, line, host)
  {
    assert [line][1..] == [];
    assert FirstPin(codec, [], host) == None;
  }

  lemma RecordedLineLookup(codec: KeyCodec, host: string, k: Key, other: string)
    requires k in codec.blobs && RoundTrips(codec, k) && '\n' !in host
    ensures var line := host + " " + KeyLine(codec, k);
            Lookup(codec, line + "\n", other) == LineKey(codec, line, other)
  {
    var line := host + " " + KeyLine(codec, k);
    KeyLineIsTrimmed(codec, k);
    LookupClosed(codec, line, other);
    SplitOne(line, '\n');
    OneLine(codec, line, other);
  }

  /** On first contact, the recorded key is found again if and only if the name is plain. */
  lemma RecordedIsFoundIff(codec: KeyCodec, content: string, host: string, k: Key)
    requires GoodCodec(codec) && k in codec.blobs
    requires Terminated(content) && Lookup(codec, content, host) == None
    ensures Lookup(codec, Record(codec, content, host, k), host) == if PlainHost(host) then Some(k) else None
  {
    var line := host + " " + KeyLine(codec, k);
    assert RoundTrips(codec, k);
    LookupAppended(codec, content, line + "\n", host);
    assert Record(codec, content, host, k) == content + (line + "\n");
    if !NoSpace(host) || ',' in host {
      NeverPinned(codec, Split(line + "\n", '\n'), host);
    } else {
      WordHasNoNewline(host);
      RecordedLineLookup(codec, host, k, host);
      if PlainHost(host) {
        RecordedLine(codec, host, k, host);
      } else {
        RecordedLineIsLost(codec, host, k);
      }
    }
  }

  // ---------- appending to an unterminated line ----------

  function LastLine(content: string): string {
    var lines := Split(content, '\n');
    lines[|lines| - 1]
  }

  /** The comma-separated names in front of the last one. */
  function NamesBefore(t: string): seq<string> {
    var parts := Split(t, ',');
    parts[..|parts| - 1]
  }

  /**
   What a record appended to the unterminated text `t` pins for its host. After a first column
   that is still open it survives if its name stands alone there or is named already; after more
   it becomes part of that line's key text, and counts only if the whole still parses.
   */
  function JoinedPin(codec: KeyCodec, t: string, host: string, k: Key): (r: Option<Key>)
    requires k in codec.blobs
  {
    if t == "" then Some(k)
    else if t[0] == '#' then None
    else if NoSpace(t) then if t[|t| - 1] == ',' || host in NamesBefore(t) then Some(k) else None
    else
      var i := FirstSpace(t);
      var keypart := Trim(t[i + 1..] + (host + " " + KeyLine(codec, k)));
      if host in Split(t[..i], ',') && keypart in codec.keys then Some(codec.keys[keypart]) else None
  }

  lemma {:induction false} SplitExtend(s: string, x: string, sep: char)
    requires sep !in x
    ensures var parts := Split(s, sep);
            Split(s + x, sep) == parts[..|parts| - 1] + [parts[|parts| - 1] + x]
  {
    if s == "" {
      assert s + x == x && "" + x == x;
      SplitOne(x, sep);
    } else {
      SplitExtend(s[1..], x, sep);
      assert (s + x)[0] == s[0] && (s + x)[1..] == s[1..] + x;
      PrefixExtend(s[0], sep, Split(s[1..], sep), x);
    }
  }

  lemma PrefixExtend(c: char, sep: char, parts: seq<string>, x: string)
    requires parts != []
    ensures var p := Prefix(c, sep, parts);
            Prefix(c, sep, parts[..|parts| - 1] + [parts[|parts| - 1] + x]) == p[..|p| - 1] + [p[|p| - 1] + x]
  {
    if |parts| == 1 && c != sep {
      assert [c] + (parts[0] + x) == [c] + parts[0] + x;
    }
  }

  lemma {:induction false} TrimLeftAppend(f: string, x: string)
    requires x != "" && !IsSpace(x[0])
    ensures TrimLeft(f + x) == TrimLeft(f) + x
  {
    if f == "" {
      assert f + x == x;
    } else if IsSpace(f[0]) {
      assert (f + x)[1..] == f[1..] + x;
      TrimLeftAppend(f[1..], x);
    }
  }

  /** A last part is empty exactly after a separator. */
  lemma {:induction false} LastPartEmpty(s: string, sep: char)
    requires s != ""
    ensures var parts := Split(s, sep); parts[|parts| - 1] == "" <==> s[|s| - 1] == sep
  {
    if |s| > 1 { LastPartEmpty(s[1..], sep); }
  }

  /** Appended to a word, the name is listed if it stands alone after a comma or was listed before. */
  lemma JoinedName(t: string, host: string)
    requires t != "" && PlainHost(host)
    ensures host in Split(t + host, ',') <==> t[|t| - 1] == ',' || host in NamesBefore(t)
  {
    var parts := Split(t, ',');
    SplitExtend(t, host, ',');
    LastPartEmpty(t, ',');
    var joined := parts[|parts| - 1] + host;
    assert joined == host <==> parts[|parts| - 1] == "" by { assert "" + host == host; }
    assert Split(t + host, ',') == NamesBefore(t) + [joined];
  }

  lemma JoinedWord(u: string, host: string, keyLine: string)
    requires u != "" && NoSpace(u) && PlainHost(host)
    ensures var t := u + (host + " " + keyLine);
            var i := FirstSpace(t);
            && i < |t| && t[i + 1..] == keyLine && t[0] == u[0]
            && (host in Split(t[..i], ',') <==> u[|u| - 1] == ',' || host in NamesBefore(u))
  {
    var t := u + (host + " " + keyLine);
    assert t == (u + host) + " " + keyLine;
    FirstSpaceAt(u + host, keyLine);
    assert t[..|u + host|] == u + host;
    JoinedName(u, host);
  }

  lemma TrimJoined(f: string, x: string)
    requires x != "" && !IsSpace(x[0]) && !IsSpace(x[|x| - 1])
    ensures Trim(f + x) == TrimLeft(f) + x
  {
    TrimLeftAppend(f, x);
    TrimRightNothing(TrimLeft(f), x);
  }

  lemma TrimRightNothing(u: string, x: string)
    requires x != "" && !IsSpace(x[|x| - 1])
    ensures TrimRight(u + x) == u + x
  {
    assert (u + x)[|u + x| - 1] == x[|x| - 1];
  }

  lemma JoinedToWord(codec: KeyCodec, u: string, host: string, keyLine: string, named: bool)
    requires u != "" && NoSpace(u) && PlainHost(host) && named == (u[|u| - 1] == ',' || host in NamesBefore(u))
    requires Trim(keyLine) == keyLine && keyLine in codec.keys
    ensures TrimmedKey(codec, u + (host + " " + keyLine), host)
            == if u[0] != '#' && named then Some(codec.keys[keyLine]) else None
  {
    JoinedWord(u, host, keyLine);
    KeyAfterWord(codec, u + (host + " " + keyLine), host, keyLine, named);
  }

  lemma KeyAfterWord(codec: KeyCodec, t: string, host: string, keyLine: string, named: bool)
    requires FirstSpace(t) < |t| && t[FirstSpace(t) + 1..] == keyLine
    requires host in Split(t[..FirstSpace(t)], ',') <==> named
    requires Trim(keyLine) == keyLine && keyLine in codec.keys
    ensures TrimmedKey(codec, t, host) == if t[0] != '#' && named then Some(codec.keys[keyLine]) else None
  {}

  lemma JoinedToMore(codec: KeyCodec, u: string, host: string, x: string)
    requires !NoSpace(u)
    ensures var i := FirstSpace(u);
            var keypart := Trim(u[i + 1..] + x);
            TrimmedKey(codec, u + x, host) ==
            if u[0] != '#' && host in Split(u[..i], ',') && keypart in codec.keys then Some(codec.keys[keypart]) else None
  {
    FirstSpaceOfPrefix(u, x);
    assert (u + x)[FirstSpace(u) + 1..] == u[FirstSpace(u) + 1..] + x;
  }

  lemma JoinedKey(codec: KeyCodec, u: string, host: string, k: Key)
    requires PlainHost(host) && k in codec.blobs && RoundTrips(codec, k) && u != ""
    ensures TrimmedKey(codec, u + (host + " " + KeyLine(codec, k)), host) == JoinedPin(codec, u, host, k)
  {
    if NoSpace(u) {
      KeyLineIsTrimmed(codec, k);
      TrimNothing(KeyLine(codec, k));
      JoinedToWord(codec, u, host, KeyLine(codec, k), u[|u| - 1] == ',' || host in NamesBefore(u));
    } else {
      JoinedToMore(codec, u, host, host + " " + KeyLine(codec, k));
    }
  }

  lemma JoinedLine(codec: KeyCodec, f: string, host: string, k: Key)
    requires PlainHost(host) && k in codec.blobs && RoundTrips(codec, k)
    ensures LineKey(codec, f + (host + " " + KeyLine(codec, k)), host) == JoinedPin(codec, TrimLeft(f), host, k)
  {
    var keyLine := KeyLine(codec, k);
    var line := host + " " + keyLine;
    KeyLineIsTrimmed(codec, k);
    assert line[0] == host[0] && line[|line| - 1] == keyLine[|keyLine| - 1];
    TrimJoined(f, line);
    if TrimLeft(f) == "" {
      assert "" + line == line;
      TrimNothing(line);
      RecordedLine(codec, host, k, host);
    } else {
      JoinedKey(codec, TrimLeft(f), host, k);
    }
  }

  lemma FirstSpaceOfPrefix(u: string, x: string)
    requires !NoSpace(u)
    ensures FirstSpace(u) < |u| && FirstSpace(u + x) == FirstSpace(u)
    ensures (u + x)[..FirstSpace(u)] == u[..FirstSpace(u)]
  {
    var i := FirstSpace(u + x);
    assert forall j :: 0 <= j < |u| ==> (u + x)[j] == u[j];
    var j :| 0 <= j < |u| && IsSpace(u[j]);
    assert i <= j;
  }

  /** On first contact, for any file whatever it ends with: what the file pins for a plain name after recording it. */
  lemma RecordOutcome(codec: KeyCodec, content: string, host: string, k: Key)
    requires GoodCodec(codec) && k in codec.blobs && PlainHost(host) && Lookup(codec, content, host) == None
    ensures Lookup(codec, Record(codec, content, host, k), host) == JoinedPin(codec, TrimLeft(LastLine(content)), host, k)
  {
    var line := host + " " + KeyLine(codec, k);
    var lines := Split(content, '\n');
    var front, f := lines[..|lines| - 1], lines[|lines| - 1];
    assert RoundTrips(codec, k);
    KeyLineIsTrimmed(codec, k);
    WordHasNoNewline(host);
    LookupClosed(codec, content + line, host);
    SplitExtend(content, line, '\n');
    assert lines == front + [f];
    FirstPinAppend(codec, front, [f], host);
    FirstPinAppend(codec, front, [f + line], host);
    OneLine(codec, f + line, host);
    JoinedLine(codec, f, host, k);
  }

  /** For example, a comment without a newline swallows the record, whatever is recorded. */
  lemma UnterminatedCommentSwallows(codec: KeyCodec, comment: string, host: string, k: Key)
    requires GoodCodec(codec) && k in codec.blobs && PlainHost(host)
    requires comment != "" && comment[0] == '#' && '\n' !in comment
    ensures Lookup(codec, comment, host) == None && Lookup(codec, Record(codec, comment, host, k), host) == None
  {
    var line := host + " " + KeyLine(codec, k);
    assert RoundTrips(codec, k);
    KeyLineIsTrimmed(codec, k);
    WordHasNoNewline(host);
    CommentPinsNothing(codec, comment, host);
    LookupClosed(codec, comment + line, host);
    CommentPinsNothing(codec, comment + line, host);
  }

  lemma CommentPinsNothing(codec: KeyCodec, comment: string, host: string)
    requires comment != "" && comment[0] == '#' && '\n' !in comment
    ensures Lookup(codec, comment, host) == None
  {
    SplitOne(comment, '\n');
    TrimRightKeepsFirst(comment);
    OneLine(codec, comment, host);
  }

  lemma {:induction false} TrimRightKeepsFirst(s: string)
    requires s != "" && !IsSpace(s[0])
    ensures TrimRight(s) != "" && TrimRight(s)[0] == s[0]
  {
    if |s| > 1 && IsSpace(s[|s| - 1]) { TrimRightKeepsFirst(s[..|s| - 1]); }
  }

  // ---------- runs ----------

  /** The file after a sequence of verifications, of any hosts under any policies. */
  function After(codec: KeyCodec, content: string, attempts: seq<Attempt>): string {
    if attempts == [] then content
    else
      var last := |attempts| - 1;
      Verify(codec, After(codec, content, attempts[..last]), attempts[last]).1
  }

  predicate Accepted(codec: KeyCodec, content: string, attempts: seq<Attempt>, i: nat)
    requires i < |attempts|
  {
    Verify(codec, After(codec, content, attempts[..i]), attempts[i]).0
  }

  /** A verification leaves the file terminated and every pin in place. */
  lemma VerifyKeepsPins(codec: KeyCodec, content: string, a: Attempt, host: string)
    requires Terminated(content)
    ensures Terminated(Verify(codec, content, a).1)
    ensures Lookup(codec, content, host).Some?
            ==> Lookup(codec, Verify(codec, content, a).1, host) == Lookup(codec, content, host)
  {
    if Verify(codec, content, a).1 != content {
      var line := (a.host + " " + KeyLine(codec, a.presented.value)) + "\n";
      assert Verify(codec, content, a).1 == content + line;
      LookupAppended(codec, content, line, host);
    }
  }

  lemma {:induction false} AfterIsTerminated(codec: KeyCodec, content: string, attempts: seq<Attempt>)
    requires Terminated(content)
    ensures Terminated(After(codec, content, attempts))
  {
    if attempts != [] {
      var last := |attempts| - 1;
      AfterIsTerminated(codec, content, attempts[..last]);
      VerifyKeepsPins(codec, After(codec, content, attempts[..last]), attempts[last], "");
    }
  }

  lemma {:induction false} AfterKeepsPins(codec: KeyCodec, content: string, attempts: seq<Attempt>, i: nat, host: string)
    requires Terminated(content) && i <= |attempts|
    requires Lookup(codec, After(codec, content, attempts[..i]), host).Some?
    ensures Lookup(codec, After(codec, content, attempts), host)
            == Lookup(codec, After(codec, content, attempts[..i]), host)
    decreases |attempts|
  {
    if i == |attempts| {
      assert attempts[..i] == attempts;
    } else {
      var last := |attempts| - 1;
      assert attempts[..last][..i] == attempts[..i];
      AfterKeepsPins(codec, content, attempts[..last], i, host);
      AfterIsTerminated(codec, content, attempts[..last]);
      VerifyKeepsPins(codec, After(codec, content, attempts[..last]), attempts[last], host);
    }
  }

  /** An accepted key is the one the file pins from then on. */
  lemma AcceptedIsPinned(codec: KeyCodec, content: string, a: Attempt)
    requires GoodCodec(codec) && Terminated(content) && PlainHost(a.host) && Verify(codec, content, a).0
    ensures Lookup(codec, Verify(codec, content, a).1, a.host) == a.presented
  {
    if Lookup(codec, content, a.host).None? {
      RecordedIsFoundIff(codec, content, a.host, a.presented.value);
    }
  }

  /**
   Once a key has been accepted for a host, any later verification of that host, under whatever
   policy and whatever came between, accepts exactly that key and leaves the file as it is.
   */
  lemma PinNeverChanges(codec: KeyCodec, content: string, attempts: seq<Attempt>, i: nat, j: nat)
    requires GoodCodec(codec) && Terminated(content) && i < j < |attempts|
    requires attempts[i].host == attempts[j].host && PlainHost(attempts[i].host)
    requires Accepted(codec, content, attempts, i)
    ensures Accepted(codec, content, attempts, j) <==> attempts[j].presented == attempts[i].presented
    ensures After(codec, content, attempts[..j + 1]) == After(codec, content, attempts[..j])
  {
    AfterIsTerminated(codec, content, attempts[..i]);
    AcceptedIsPinned(codec, After(codec, content, attempts[..i]), attempts[i]);
    AfterNext(codec, content, attempts, i);
    assert attempts[..j][..i + 1] == attempts[..i + 1];
    AfterKeepsPins(codec, content, attempts[..j], i + 1, attempts[i].host);
    AfterNext(codec, content, attempts, j);
  }

  lemma AfterNext(codec: KeyCodec, content: string, attempts: seq<Attempt>, i: nat)
    requires i < |attempts|
    ensures After(codec, content, attempts[..i + 1])
            == Verify(codec, After(codec, content, attempts[..i]), attempts[i]).1
  {
    assert attempts[..i + 1][..i] == attempts[..i];
  }

  // ---------- first contact ----------

  /** The user says yes, or the key is the trusted one, or nobody is asked. */
  predicate Invites(a: Attempt) {
    a.presented.Some? && (a.policy == Silent || a.policy == Interactive(true) || a.policy == TrustKey(a.presented.value))
  }

  /**
   On first contact a key is accepted exactly if it is invited and can be written down, and then its
   line is appended. A key that is refused at the prompt, or is not the trusted one, is rejected and
   the file stays as it is.
   */
  lemma FirstContactIff(codec: KeyCodec, content: string, a: Attempt)
    requires Lookup(codec, content, a.host) == None
    ensures Verify(codec, content, a).0 <==> Invites(a) && a.presented.value in codec.blobs
    ensures Verify(codec, content, a).1 ==
            if Verify(codec, content, a).0 then content + (a.host + " ssh-ed25519 " + codec.blobs[a.presented.value] + "\n") else content
  {
    if Verify(codec, content, a).0 {
      var blob := codec.blobs[a.presented.value];
      assert content + (a.host + " " + ("ssh-ed25519" + " " + blob)) + "\n" == content + (a.host + " ssh-ed25519 " + blob + "\n");
    }
  }

  /** The key of the first attempt on the host that is invited and can be written down. */
  function FirstInvited(codec: KeyCodec, attempts: seq<Attempt>, host: string): (r: Option<Key>)
    decreases |attempts|
  {
    if attempts == [] then None
    else
      var a := attempts[|attempts| - 1];
      var before := FirstInvited(codec, attempts[..|attempts| - 1], host);
      if before.Some? then before
      else if a.host == host && Invites(a) && a.presented.value in codec.blobs then a.presented
      else None
  }

  /** One verification, of this or another plain host, in a file without a pin. */
  lemma UnpinnedStep(codec: KeyCodec, content: string, a: Attempt, host: string)
    requires GoodCodec(codec) && Terminated(content) && PlainHost(a.host) && Lookup(codec, content, host) == None
    ensures Lookup(codec, Verify(codec, content, a).1, host) ==
            if a.host == host && Invites(a) && a.presented.value in codec.blobs then a.presented else None
  {
    if Verify(codec, content, a).1 != content {
      var k := a.presented.value;
      var line := (a.host + " " + KeyLine(codec, k)) + "\n";
      assert RoundTrips(codec, k);
      assert Verify(codec, content, a).1 == content + line;
      LookupAppended(codec, content, line, host);
      WordHasNoNewline(a.host);
      RecordedLineLookup(codec, a.host, k, host);
      RecordedLine(codec, a.host, k, host);
    } else if Lookup(codec, content, a.host) == None {
      FirstContactIff(codec, content, a);
    }
  }

  /**
   Trust on first use, over any sequence of verifications of plain names under any policies, from a
   file without a pin for the host: what the file pins is the first key invited for it, and nothing
   as long as every key was turned away.
   */
  lemma {:induction false} TrustOnFirstUse(codec: KeyCodec, content: string, attempts: seq<Attempt>, host: string)
    requires GoodCodec(codec) && Terminated(content) && Lookup(codec, content, host) == None
    requires forall i :: 0 <= i < |attempts| ==> PlainHost(attempts[i].host)
    ensures Lookup(codec, After(codec, content, attempts), host) == FirstInvited(codec, attempts, host)
    decreases |attempts|
  {
    if attempts != [] {
      var last := |attempts| - 1;
      var before := After(codec, content, attempts[..last]);
      TrustOnFirstUse(codec, content, attempts[..last], host);
      AfterIsTerminated(codec, content, attempts[..last]);
      if Lookup(codec, before, host).Some? {
        VerifyKeepsPins(codec, before, attempts[last], host);
      } else {
        UnpinnedStep(codec, before, attempts[last], host);
      }
    }
  }
}
