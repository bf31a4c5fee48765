/**
 * Discovery of the log files offered for monitoring (`get_available_logs`):
 * the list of accepted extensions read from the `LOG_EXTENSIONS=` line of the
 * `.env` file, and the filter applied to the remote directory listing.
 */
module Extensions {
  import opened Wrappers
  import opened Text

  const KeyName := "LOG_EXTENSIONS"
  const ExtensionsKey := KeyName + "="
  const DefaultExtensions: seq<string> := ["log"]

  /** A line that starts with the key still starts with it after `strip()`,
      because the key's first character is not whitespace and its `=` is not either. */
  lemma StripKeyLine(line: string)
    requires StartsWith(line, ExtensionsKey)
    ensures StartsWith(Strip(line), ExtensionsKey)
  {
    var t := RStrip(line);
    assert line[|ExtensionsKey| - 1] == '=';
    RStripKeepsNonSpace(line, |ExtensionsKey| - 1);
    RStripShape(line);
    assert t[..|ExtensionsKey|] == line[..|ExtensionsKey|];
    assert t[0] == 'L';
    assert LStrip(t) == t;
  }

  /** `rstrip` never removes a character that is not whitespace. */
  lemma {:induction false} RStripKeepsNonSpace(s: string, i: nat)
    requires i < |s| && !IsSpace(s[i])
    ensures i < |RStrip(s)|
    decreases |s|
  {
    if IsSpace(s[|s| - 1]) {
      RStripKeepsNonSpace(s[..|s| - 1], i);
    }
  }

  /** `strip()` keeps a contiguous part of its argument, so it adds no character. */
  lemma StripSubset(s: string, c: char)
    requires c !in s
    ensures c !in Strip(s)
  {
    var t := RStrip(s);
    var r := LStrip(t);
    RStripShape(s);
    LStripShape(t);
    assert t == s[..|t|];
    assert r == t[|t| - |r|..];
  }

  /** `line.strip().split('=')[1]`, which exists for a line that starts with the key. */
  function KeyValue(line: string): (value: string)
    requires StartsWith(line, ExtensionsKey)
  {
    var stripped := Strip(line);
    StripKeyLine(line);
    assert stripped[|ExtensionsKey| - 1] == '=';
    SplitOn(stripped, '=')[1]
  }

  /** `[ext.strip() for ext in line.strip().split('=')[1].split(',')]`. */
  function LineExtensions(line: string): (exts: seq<string>)
    requires StartsWith(line, ExtensionsKey)
    ensures |exts| >= 1
    ensures forall i :: 0 <= i < |exts| ==> ',' !in exts[i] && Strip(exts[i]) == exts[i]
  {
    var raw := SplitOn(KeyValue(line), ',');
    StripEach(raw);
    StripAll(raw)
  }

  /** `[p.strip() for p in parts]`. */
  function StripAll(parts: seq<string>): (r: seq<string>)
    ensures |r| == |parts| && forall i :: 0 <= i < |parts| ==> r[i] == Strip(parts[i])
  {
    seq(|parts|, i requires 0 <= i < |parts| => Strip(parts[i]))
  }

  /** Parts that are already stripped come back unchanged. */
  lemma StripAllClean(parts: seq<string>)
    requires forall i :: 0 <= i < |parts| ==> Strip(parts[i]) == parts[i]
    ensures StripAll(parts) == parts
  {
  }

  lemma StripEach(raw: seq<string>)
    requires forall i :: 0 <= i < |raw| ==> ',' !in raw[i]
    ensures forall i :: 0 <= i < |raw| ==> ',' !in Strip(raw[i]) && Strip(Strip(raw[i])) == Strip(raw[i])
  {
    forall i | 0 <= i < |raw| ensures ',' !in Strip(raw[i]) && Strip(Strip(raw[i])) == Strip(raw[i]) {
      StripSubset(raw[i], ',');
      StripShape(raw[i]);
      StripShape(Strip(raw[i]));
    }
  }

  /** `sep.join(parts)` ends with the last part. */
  lemma {:induction false} JoinWithEndsWithLast(parts: seq<string>, sep: char)
    requires |parts| >= 1
    ensures EndsWith(JoinWith(parts, sep), parts[|parts| - 1])
    decreases |parts|
  {
    if |parts| > 1 {
      JoinWithEndsWithLast(parts[1..], sep);
      var j := JoinWith(parts[1..], sep);
      var x := parts[0] + [sep];
      assert JoinWith(parts, sep) == x + j;
      assert (x + j)[|x + j| - |parts[|parts| - 1]|..] == j[|j| - |parts[|parts| - 1]|..];
    }
  }

  /** `sep.join(parts)` holds no character that no part holds, other than `sep`. */
  lemma {:induction false} JoinWithAvoids(parts: seq<string>, sep: char, c: char)
    requires c != sep
    requires forall i :: 0 <= i < |parts| ==> c !in parts[i]
    ensures c !in JoinWith(parts, sep)
    decreases |parts|
  {
    if |parts| > 1 {
      JoinWithAvoids(parts[1..], sep, c);
    }
  }

  /** An extension as a user would write it in the `.env` file: non-empty, with no
      `,` or `=`, and no whitespace at either end. */
  predicate CleanExtension(e: string) {
    e != [] && ',' !in e && '=' !in e && !IsSpace(e[0]) && !IsSpace(e[|e| - 1])
  }

  /** Writing the line `LOG_EXTENSIONS=` followed by clean extensions joined with
      commas (and any line ending) and reading it back gives the same extensions. */
  lemma LineExtensionsOfWritten(exts: seq<string>, eol: string)
    requires |exts| >= 1
    requires forall i :: 0 <= i < |exts| ==> CleanExtension(exts[i])
    requires AllSpace(eol)
    ensures StartsWith(ExtensionsKey + JoinWith(exts, ',') + eol, ExtensionsKey)
    ensures LineExtensions(ExtensionsKey + JoinWith(exts, ',') + eol) == exts
  {
    var j := JoinWith(exts, ',');
    JoinedExtensions(exts);
    KeyValueOfWritten(j, eol);
    assert forall i :: 0 <= i < |exts| ==> ',' !in exts[i];
    SplitOnJoinWith(exts, ',');
    assert forall i :: 0 <= i < |exts| ==> Strip(exts[i]) == exts[i];
    StripAllClean(exts);
  }

  /** What clean extensions joined with commas look like: no `=`, and a last
      character that is not whitespace. */
  lemma JoinedExtensions(exts: seq<string>)
    requires |exts| >= 1
    requires forall i :: 0 <= i < |exts| ==> CleanExtension(exts[i])
    ensures var j := JoinWith(exts, ',');
      j != [] && '=' !in j && !IsSpace(j[|j| - 1])
  {
    var last := exts[|exts| - 1];
    assert CleanExtension(last);
    JoinWithEndsWithLast(exts, ',');
    JoinWithAvoids(exts, ',', '=');
  }

  /** The key's name holds no `=` and does not start with whitespace. */
  lemma KeyNameFacts()
    ensures ExtensionsKey == KeyName + ['='] && KeyName != [] && !IsSpace(KeyName[0])
    ensures SplitOn(KeyName, '=') == [KeyName]
  {
    assert '=' !in KeyName;
  }

  /** The value of the key line `LOG_EXTENSIONS=` + `j` + line ending is `j`. */
  lemma KeyValueOfWritten(j: string, eol: string)
    requires j != [] && '=' !in j && !IsSpace(j[|j| - 1])
    requires AllSpace(eol)
    ensures StartsWith(ExtensionsKey + j + eol, ExtensionsKey)
    ensures KeyValue(ExtensionsKey + j + eol) == j
  {
    KeyNameFacts();
    var x := KeyName + ['='] + j;
    assert ExtensionsKey + j + eol == x + eol;
    assert (x + eol)[..|ExtensionsKey|] == ExtensionsKey;
    assert x[|x| - 1] == j[|j| - 1];
    assert x[0] == KeyName[0];
    StripTrailingSpace(x, eol);
    SplitOnConcat(KeyName, j, '=');
    SplitOnFree(j, '=');
  }

  /** A text that neither starts nor ends with whitespace, followed by whitespace,
      strips back to the text. */
  lemma StripTrailingSpace(x: string, eol: string)
    requires x != [] && !IsSpace(x[0]) && !IsSpace(x[|x| - 1])
    requires AllSpace(eol)
    ensures Strip(x + eol) == x
  {
    RStripAppendSpace(x, eol);
  }

  /** The extensions a `.env` file with these lines configures: those of the first
      line that starts with `LOG_EXTENSIONS=`, or `["log"]` when no line does. */
  function ConfiguredExtensions(lines: seq<string>): (exts: seq<string>)
    ensures (forall i :: 0 <= i < |lines| ==> !StartsWith(lines[i], ExtensionsKey)) ==> exts == DefaultExtensions
    ensures forall i :: FirstKeyLine(lines, i) ==> exts == LineExtensions(lines[i])
    decreases |lines|
  {
    if lines == [] then DefaultExtensions
    else if StartsWith(lines[0], ExtensionsKey) then LineExtensions(lines[0])
    else
      var exts := ConfiguredExtensions(lines[1..]);
      assert forall i :: FirstKeyLine(lines, i) ==> FirstKeyLine(lines[1..], i - 1);
      exts
  }

  /** Line `i` is the first line that starts with the key. */
  predicate FirstKeyLine(lines: seq<string>, i: int) {
    0 <= i < |lines| && StartsWith(lines[i], ExtensionsKey)
    && forall j :: 0 <= j < i ==> !StartsWith(lines[j], ExtensionsKey)
  }

  /** The extension part of `get_available_logs`: `["log"]` when there is no `.env`
      file (`env` is `None`), otherwise the `for ... else` search over its lines. */
  method ReadExtensions(env: Option<string>) returns (exts: seq<string>)
    ensures env.None? ==> exts == DefaultExtensions
    ensures env.Some? ==> exts == ConfiguredExtensions(SplitLines(env.value))
  {
    if env.None? {
      return DefaultExtensions;
    }
    var lines := SplitLines(env.value);
    var i := 0;
    while i < |lines|
      invariant 0 <= i <= |lines|
      invariant ConfiguredExtensions(lines[i..]) == ConfiguredExtensions(lines)
    {
      if StartsWith(lines[i], ExtensionsKey) {
        return LineExtensions(lines[i]);
      }
      assert lines[i..][1..] == lines[i + 1..];
      i := i + 1;
    }
    return DefaultExtensions;
  }

  /** `any(name.endswith(f'.{ext}') for ext in extensions)`. */
  predicate HasLogExtension(name: string, exts: seq<string>) {
    exists e :: e in exts && EndsWith(name, ['.'] + e)
  }

  /** The names that pass the filter, in listing order. */
  function Kept(names: seq<string>, exts: seq<string>): seq<string> {
    if names == [] then []
    else
      var last := names[|names| - 1];
      Kept(names[..|names| - 1], exts) + (if HasLogExtension(last, exts) then [last] else [])
  }

  /** A name is kept if and only if it is listed and ends with `.` and an extension. */
  lemma {:induction false} KeptMembers(names: seq<string>, exts: seq<string>, f: string)
    ensures f in Kept(names, exts) <==> f in names && HasLogExtension(f, exts)
    decreases |names|
  {
    if names != [] {
      var init := names[..|names| - 1];
      KeptMembers(init, exts, f);
      assert names == init + [names[|names| - 1]];
    }
  }

  /** Filtering a listing in two pieces gives the two filtered pieces in order. */
  lemma {:induction false} KeptAppend(a: seq<string>, b: seq<string>, exts: seq<string>)
    ensures Kept(a + b, exts) == Kept(a, exts) + Kept(b, exts)
    decreases |b|
  {
    if b == [] {
      assert a + b == a;
    } else {
      var init := b[..|b| - 1];
      assert (a + b)[..|a + b| - 1] == a + init;
      KeptAppend(a, init, exts);
    }
  }

  /** The filter loop of `get_available_logs`, appending each accepted name. */
  method FilterLogs(names: seq<string>, exts: seq<string>) returns (files: seq<string>)
    ensures files == Kept(names, exts)
    ensures forall f :: f in files <==> f in names && HasLogExtension(f, exts)
  {
    files := [];
    var i := 0;
    while i < |names|
      invariant 0 <= i <= |names|
      invariant files == Kept(names[..i], exts)
    {
      var f := names[i];
      assert names[..i + 1][..i] == names[..i];
      if HasLogExtension(f, exts) {
        files := files + [f];
      }
      i := i + 1;
    }
    assert names[..i] == names;
    forall f ensures f in files <==> f in names && HasLogExtension(f, exts) {
      KeptMembers(names, exts, f);
    }
  }

  /** `get_available_logs` with its I/O as inputs: the `.env` text (`None` when the
      file is missing), whether a settings row exists, and the remote listing
      (`None` when connecting or listing raised). Every failure yields `[]`. */
  method GetAvailableLogs(env: Option<string>, settingsFound: bool, listing: Option<seq<string>>)
    returns (files: seq<string>)
    ensures !settingsFound || listing.None? ==> files == []
    ensures settingsFound && listing.Some? ==>
      files == Kept(listing.value, if env.None? then DefaultExtensions else ConfiguredExtensions(SplitLines(env.value)))
  {
    var exts := ReadExtensions(env);
    if !settingsFound {
      return [];
    }
    if listing.None? {
      return [];
    }
    files := FilterLogs(listing.value, exts);
  }
}
