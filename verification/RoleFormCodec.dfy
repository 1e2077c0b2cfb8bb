/** The role form and its parser undo each other, exactly on the roles a form can express. */
module RoleFormCodec {
  import opened Wrappers
  import opened Durations
  import opened Sorting
  import opened Decimal
  import opened Text
  import opened Trimming
  import opened Roles
  import opened RoleForm

  // -------------------------------------------------------------------------------------
  // The roles a form can express
  // -------------------------------------------------------------------------------------

  predicate PlainLine(s: string) {
    s != "" && Trimmed(s) && OneLine(s)
  }

  predicate PlainLines(ls: seq<string>) {
    forall i :: 0 <= i < |ls| ==> PlainLine(ls[i])
  }

  predicate PlainEntry(k: string, v: string) {
    PlainLine(k) && '=' !in k && Trimmed(v) && OneLine(v)
  }

  predicate PlainExtensions(m: Extensions) {
    forall k :: k in m ==> PlainEntry(k, m[k])
  }

  predicate Canonical(r: Role) {
    && r.name != "" && Trimmed(r.name)
    && r.groupClaim != "" && Trimmed(r.groupClaim)
    && PlainLines(r.allowedPrincipals) && PlainLines(r.hostPatterns) && PlainLines(r.spiffePatterns)
    && r.maxUserCertTTLSeconds >= 0 && r.maxHostCertTTLSeconds >= 0 && r.maxX509CertTTLSeconds >= 0
    && PlainExtensions(r.defaultExtensions)
  }

  // -------------------------------------------------------------------------------------
  // What the parser accepts is canonical
  // -------------------------------------------------------------------------------------

  lemma {:induction false} KeptIsPlain(lines: seq<string>)
    requires forall i :: 0 <= i < |lines| ==> OneLine(lines[i])
    ensures PlainLines(Kept(lines))
  {
    if lines != [] {
      KeptIsPlain(lines[..|lines| - 1]);
    }
  }

  lemma PartsArePlain(line: string)
    requires Trimmed(line) && OneLine(line) && KeyPart(line) != ""
    ensures PlainEntry(KeyPart(line), ValuePart(line))
  {
    var i := FirstEquals(line);
    assert forall c :: c in line[..i] ==> c in line;
    if i < |line| {
      assert forall c :: c in line[i + 1..] ==> c in line;
    }
  }

  lemma {:induction false} ParsedIsPlain(lines: seq<string>)
    requires forall i :: 0 <= i < |lines| ==> OneLine(lines[i])
    ensures ParsedLines(lines).Ok? ==> PlainExtensions(ParsedLines(lines).value)
  {
    if lines != [] {
      ParsedIsPlain(lines[..|lines| - 1]);
      var line := Trim(lines[|lines| - 1]);
      if KeyPart(line) != "" {
        PartsArePlain(line);
      }
    }
  }

  lemma ParsedSeconds(field: string)
    ensures ParseSeconds(field).Ok? ==> ParseSeconds(field).value >= 0
  {
  }

  lemma AssembledIsCanonical(name: string, group: string, principals: seq<string>, hosts: seq<string>,
                             uris: seq<string>, user: Cap, host: Cap, x509: Cap,
                             exts: Result<Extensions, FormError>)
    requires Trimmed(name) && Trimmed(group) && PlainLines(principals) && PlainLines(hosts) && PlainLines(uris)
    requires (user.Ok? ==> user.value >= 0) && (host.Ok? ==> host.value >= 0) && (x509.Ok? ==> x509.value >= 0)
    requires exts.Ok? ==> PlainExtensions(exts.value)
    ensures
      var r := Assemble(name, group, principals, hosts, uris, user, host, x509, exts);
      r.Ok? ==> Canonical(r.value)
  {
  }

  lemma ParsedIsCanonical(f: Form)
    ensures Parse(f).Ok? ==> Canonical(Parse(f).value)
  {
    KeptIsPlain(Split(f.allowedPrincipals));
    KeptIsPlain(Split(f.hostPatterns));
    KeptIsPlain(Split(f.spiffePatterns));
    ParsedSeconds(f.maxUserCertTTLSeconds);
    ParsedSeconds(f.maxHostCertTTLSeconds);
    ParsedSeconds(f.maxX509CertTTLSeconds);
    ParsedIsPlain(Split(f.defaultExtensions));
    AssembledIsCanonical(Trim(f.name), Trim(f.groupClaim),
                         Kept(Split(f.allowedPrincipals)), Kept(Split(f.hostPatterns)), Kept(Split(f.spiffePatterns)),
                         ParseSeconds(f.maxUserCertTTLSeconds), ParseSeconds(f.maxHostCertTTLSeconds),
                         ParseSeconds(f.maxX509CertTTLSeconds), ParsedLines(Split(f.defaultExtensions)));
  }

  // -------------------------------------------------------------------------------------
  // A canonical role survives
  // -------------------------------------------------------------------------------------

  lemma PlainLineKept(l: string)
    requires PlainLine(l)
    ensures KeptLine(l) == [l]
  {
  }

  lemma {:induction false} PlainIsKept(ls: seq<string>)
    requires PlainLines(ls)
    ensures Kept(ls) == ls
  {
    if ls != [] {
      PlainIsKept(ls[..|ls| - 1]);
      PlainLineKept(ls[|ls| - 1]);
      assert ls == ls[..|ls| - 1] + [ls[|ls| - 1]];
    }
  }

  lemma {:induction false} LinesRoundTrip(ls: seq<string>)
    requires PlainLines(ls)
    ensures Kept(Split(Join(ls))) == ls
  {
    if ls == [] {
      assert Split("") == [""];
      assert Kept([""]) == Kept([]) + KeptLine("");
    } else {
      SplitJoin(ls);
      PlainIsKept(ls);
    }
  }

  lemma {:induction false} NumberParses(d: string)
    requires d != "" && AllDigits(d) && 0 <= Value(d) < TWO_63
    ensures ParseInt(d) == Some(Value(d)) && Trimmed(d)
  {
    assert IsDigit(d[0]) && IsDigit(d[|d| - 1]);
  }

  lemma SecondsRoundTrip(n: int64)
    requires n >= 0
    ensures ParseSeconds(SecsString(n)) == Ok(n)
  {
    if n > 0 {
      DigitsDenote(n);
      NumberParses(Digits(n));
    }
  }

  lemma {:induction false} FirstEqualsAt(k: string, rest: string)
    requires '=' !in k && (rest == "" || rest[0] == '=')
    ensures FirstEquals(k + rest) == |k|
  {
    if k == "" {
      assert k + rest == rest;
    } else {
      assert (k + rest)[0] == k[0] && (k + rest)[1..] == k[1..] + rest;
      assert k[0] in k;
      FirstEqualsAt(k[1..], rest);
    }
  }

  lemma EntryRoundTrip(k: string, v: string)
    requires PlainEntry(k, v)
    ensures
      var line := ExtensionLine(k, v);
      PlainLine(line) && KeyPart(line) == k && ValuePart(line) == v
  {
    var rest := if v != "" then "=" + v else "";
    var line := k + rest;
    FirstEqualsAt(k, rest);
    assert line[..|k|] == k;
    assert line[0] == k[0];
    if v == "" {
      assert line == k;
    } else {
      assert line[|line| - 1] == v[|v| - 1];
      assert line[|k| + 1..] == v;
    }
  }

  /** The extension lines, in key order. */
  function EntryLines(keys: seq<string>, m: Extensions): seq<string>
    requires forall i :: 0 <= i < |keys| ==> keys[i] in m
  {
    seq(|keys|, i requires 0 <= i < |keys| => ExtensionLine(keys[i], m[keys[i]]))
  }

  lemma {:induction false} JoinSnoc(ls: seq<string>, l: string)
    requires ls != []
    ensures Join(ls + [l]) == Join(ls) + "\n" + l
  {
    assert (ls + [l])[0] == ls[0] && (ls + [l])[1..] == ls[1..] + [l];
    if |ls| > 1 {
      JoinSnoc(ls[1..], l);
    }
  }

  lemma {:induction false} TextIsJoined(keys: seq<string>, m: Extensions)
    requires keys != [] && forall i :: 0 <= i < |keys| ==> keys[i] in m
    ensures ExtensionText(keys, m) == Join(EntryLines(keys, m)) + "\n"
  {
    var front, k := keys[..|keys| - 1], keys[|keys| - 1];
    var line := ExtensionLine(k, m[k]);
    assert EntryLines(keys, m) == EntryLines(front, m) + [line];
    if front == [] {
      assert EntryLines(keys, m) == [line];
      assert ExtensionText(keys, m) == "" + line + "\n";
    } else {
      TextIsJoined(front, m);
      JoinSnoc(EntryLines(front, m), line);
    }
  }

  lemma {:induction false} NewlineTrimmed(s: string)
    requires s != "" && s[|s| - 1] != '\n'
    ensures TrimNewlines(s + "\n") == s
  {
    assert (s + "\n")[..|s + "\n"| - 1] == s;
  }

  lemma {:induction false} JoinEnd(ls: seq<string>)
    requires ls != [] && PlainLines(ls)
    ensures Join(ls) != "" && Join(ls)[|Join(ls)| - 1] != '\n'
  {
    var last := ls[|ls| - 1];
    if |ls| == 1 {
      assert last[|last| - 1] in last;
    } else {
      JoinEnd(ls[1..]);
    }
  }

  lemma EntryParsed(m: Extensions, k: string, v: string)
    requires PlainEntry(k, v)
    ensures ParsedLine(m, ExtensionLine(k, v)) == Ok(m[k := v])
  {
    EntryRoundTrip(k, v);
  }

  function Restricted(keys: seq<string>, m: Extensions): Extensions {
    map k | k in keys && k in m :: m[k]
  }

  lemma RestrictedSnoc(front: seq<string>, k: string, m: Extensions)
    requires k in m
    ensures Restricted(front + [k], m) == Restricted(front, m)[k := m[k]]
  {
  }

  lemma {:induction false} ParsedSnoc(front: seq<string>, line: string, m: Extensions)
    requires ParsedLines(front) == Ok(m)
    ensures ParsedLines(front + [line]) == ParsedLine(m, line)
  {
    assert (front + [line])[..|front + [line]| - 1] == front;
  }

  lemma EntryLinesSnoc(front: seq<string>, k: string, m: Extensions)
    requires k in m && forall i :: 0 <= i < |front| ==> front[i] in m
    ensures EntryLines(front + [k], m) == EntryLines(front, m) + [ExtensionLine(k, m[k])]
  {
  }

  lemma {:induction false} EntriesParse(keys: seq<string>, m: Extensions)
    requires PlainExtensions(m) && forall i :: 0 <= i < |keys| ==> keys[i] in m
    ensures ParsedLines(EntryLines(keys, m)) == Ok(Restricted(keys, m))
  {
    if keys == [] {
      assert Restricted(keys, m) == map[];
    } else {
      var front, k := keys[..|keys| - 1], keys[|keys| - 1];
      assert keys == front + [k];
      EntriesParse(front, m);
      EntryLinesSnoc(front, k, m);
      ParsedSnoc(EntryLines(front, m), ExtensionLine(k, m[k]), Restricted(front, m));
      EntryParsed(Restricted(front, m), k, m[k]);
      RestrictedSnoc(front, k, m);
    }
  }

  lemma EntriesPlain(keys: seq<string>, m: Extensions)
    requires PlainExtensions(m) && forall i :: 0 <= i < |keys| ==> keys[i] in m
    ensures PlainLines(EntryLines(keys, m))
  {
    forall i | 0 <= i < |keys| ensures PlainLine(EntryLines(keys, m)[i]) {
      EntryRoundTrip(keys[i], m[keys[i]]);
    }
  }

  lemma {:induction false} TextSplits(keys: seq<string>, m: Extensions)
    requires keys != [] && (forall i :: 0 <= i < |keys| ==> keys[i] in m) && PlainLines(EntryLines(keys, m))
    ensures Split(TrimNewlines(ExtensionText(keys, m))) == EntryLines(keys, m)
  {
    var ls := EntryLines(keys, m);
    TextIsJoined(keys, m);
    JoinEnd(ls);
    NewlineTrimmed(Join(ls));
    SplitJoin(ls);
  }

  lemma {:induction false} ExtensionsRoundTrip(text: string, m: Extensions)
    requires PlainExtensions(m) && Renders(text, m)
    ensures ParsedLines(Split(text)) == Ok(m)
  {
    var keys :| RendersWith(text, m, keys);
    SortedKeysMembers(keys, m);
    if keys == [] {
      BlankHasNoLines(text);
    } else {
      EntriesPlain(keys, m);
      TextSplits(keys, m);
      EntriesParse(keys, m);
    }
    assert Restricted(keys, m) == m;
  }

  lemma ListsRoundTrip(f: Form, r: Role)
    requires Canonical(r) && f == Filled(r, f.defaultExtensions)
    ensures Trim(f.name) == r.name && Trim(f.groupClaim) == r.groupClaim
    ensures Kept(Split(f.allowedPrincipals)) == r.allowedPrincipals
    ensures Kept(Split(f.hostPatterns)) == r.hostPatterns
    ensures Kept(Split(f.spiffePatterns)) == r.spiffePatterns
  {
    LinesRoundTrip(r.allowedPrincipals);
    LinesRoundTrip(r.hostPatterns);
    LinesRoundTrip(r.spiffePatterns);
  }

  lemma CapsRoundTrip(f: Form, r: Role)
    requires Canonical(r) && f == Filled(r, f.defaultExtensions)
    ensures ParseSeconds(f.maxUserCertTTLSeconds) == Ok(r.maxUserCertTTLSeconds)
    ensures ParseSeconds(f.maxHostCertTTLSeconds) == Ok(r.maxHostCertTTLSeconds)
    ensures ParseSeconds(f.maxX509CertTTLSeconds) == Ok(r.maxX509CertTTLSeconds)
  {
    SecondsRoundTrip(r.maxUserCertTTLSeconds);
    SecondsRoundTrip(r.maxHostCertTTLSeconds);
    SecondsRoundTrip(r.maxX509CertTTLSeconds);
  }

  lemma AssembleRole(r: Role, name: string, group: string, principals: seq<string>, hosts: seq<string>,
                     uris: seq<string>, user: Cap, host: Cap, x509: Cap, exts: Result<Extensions, FormError>)
    requires name == r.name != "" && group == r.groupClaim != ""
    requires principals == r.allowedPrincipals && hosts == r.hostPatterns && uris == r.spiffePatterns
    requires user == Ok(r.maxUserCertTTLSeconds) && host == Ok(r.maxHostCertTTLSeconds)
    requires x509 == Ok(r.maxX509CertTTLSeconds) && exts == Ok(r.defaultExtensions)
    ensures Assemble(name, group, principals, hosts, uris, user, host, x509, exts) == Ok(r)
  {
  }

  lemma CanonicalRoundTrip(f: Form, r: Role)
    requires Canonical(r) && FormOf(f, r)
    ensures Parse(f) == Ok(r)
  {
    ListsRoundTrip(f, r);
    CapsRoundTrip(f, r);
    ExtensionsRoundTrip(f.defaultExtensions, r.defaultExtensions);
    AssembleRole(r, Trim(f.name), Trim(f.groupClaim),
                 Kept(Split(f.allowedPrincipals)), Kept(Split(f.hostPatterns)), Kept(Split(f.spiffePatterns)),
                 ParseSeconds(f.maxUserCertTTLSeconds), ParseSeconds(f.maxHostCertTTLSeconds),
                 ParseSeconds(f.maxX509CertTTLSeconds), ParsedLines(Split(f.defaultExtensions)));
  }

  /** Filling a form in and parsing it gives the role back exactly when the role is canonical,
      which is exactly when some form parses to it. */
  lemma FormExact(f: Form, r: Role)
    requires FormOf(f, r)
    ensures Parse(f) == Ok(r) <==> Canonical(r)
    ensures Canonical(r) <==> exists g :: Parse(g) == Ok(r)
  {
    if Canonical(r) {
      CanonicalRoundTrip(f, r);
    }
    if g :| Parse(g) == Ok(r) {
      ParsedIsCanonical(g);
    }
  }

  /** Every accepted form, filled in again from the role it gave, is accepted as the same role. */
  lemma EditRoundTrip(f: Form, again: Form)
    ensures Parse(f).Ok? && FormOf(again, Parse(f).value) ==> Parse(again) == Parse(f)
  {
    ParsedIsCanonical(f);
    if Parse(f).Ok? && FormOf(again, Parse(f).value) {
      CanonicalRoundTrip(again, Parse(f).value);
    }
  }

  // -------------------------------------------------------------------------------------
  // A browser's line ends
  // -------------------------------------------------------------------------------------

  /** Text as a browser submits a text area: every newline preceded by a carriage return. */
  function Crlf(s: string): string {
    if s == "" then "" else (if s[0] == '\n' then "\r\n" else [s[0]]) + Crlf(s[1..])
  }

  predicate SameButReturn(a: string, b: string) {
    a == b || a == b + "\r"
  }

  lemma {:induction false} SplitReturn(rest: string)
    ensures Split("\r\n" + rest) == ["\r"] + Split(rest)
  {
    SplitOneLine("\r");
    SplitAt("\r", rest);
    assert "\r\n" == "\r" + "\n";
  }

  lemma {:induction false} SplitCrlf(s: string)
    ensures |Split(Crlf(s))| == |Split(s)|
    ensures forall i :: 0 <= i < |Split(s)| ==> SameButReturn(Split(Crlf(s))[i], Split(s)[i])
  {
    if s != "" {
      var rest := Crlf(s[1..]);
      SplitCrlf(s[1..]);
      if s[0] == '\n' {
        SplitReturn(rest);
        assert "\r" == "" + "\r";
      } else {
        var a, b := Split(rest), Split(s[1..]);
        assert Crlf(s)[0] == s[0] && Crlf(s)[1..] == rest;
        assert Split(Crlf(s)) == [[s[0]] + a[0]] + a[1..] && Split(s) == [[s[0]] + b[0]] + b[1..];
        assert SameButReturn(a[0], b[0]);
        ReturnAfter(s[0], a[0], b[0]);
      }
    }
  }

  lemma ReturnAfter(c: char, a: string, b: string)
    requires SameButReturn(a, b)
    ensures SameButReturn([c] + a, [c] + b)
  {
    assert [c] + (b + "\r") == [c] + b + "\r";
  }

  lemma {:induction false} SameTrims(a: seq<string>, b: seq<string>)
    requires |a| == |b| && forall i :: 0 <= i < |a| ==> SameButReturn(a[i], b[i])
    ensures Kept(a) == Kept(b) && ParsedLines(a) == ParsedLines(b)
  {
    if a != [] {
      SameTrims(a[..|a| - 1], b[..|b| - 1]);
      assert SameButReturn(a[|a| - 1], b[|a| - 1]);
      TrimExtended(b[|b| - 1], '\r');
    }
  }

  function Submitted(f: Form): Form {
    f.(allowedPrincipals := Crlf(f.allowedPrincipals), hostPatterns := Crlf(f.hostPatterns),
       spiffePatterns := Crlf(f.spiffePatterns), defaultExtensions := Crlf(f.defaultExtensions))
  }

  lemma {:induction false} CrlfParses(s: string)
    ensures Kept(Split(Crlf(s))) == Kept(Split(s)) && ParsedLines(Split(Crlf(s))) == ParsedLines(Split(s))
  {
    SplitCrlf(s);
    SameTrims(Split(Crlf(s)), Split(s));
  }

  /** A form reads the same, error or role, with the line ends a browser submits. */
  lemma SubmittedParses(f: Form)
    ensures Parse(Submitted(f)) == Parse(f)
  {
    CrlfParses(f.allowedPrincipals);
    CrlfParses(f.hostPatterns);
    CrlfParses(f.spiffePatterns);
    CrlfParses(f.defaultExtensions);
  }

  // -------------------------------------------------------------------------------------
  // What any form is read as
  // -------------------------------------------------------------------------------------

  /** A text that stands for `n` seconds: nothing for none, or digits of a 64-bit number, signed or not. */
  ghost predicate StandsFor(raw: string, n: int) {
    || (raw == "" && n == 0)
    || exists d :: NumberText(raw, d, n)
  }

  predicate NumberText(raw: string, d: string, n: int) {
    && d != "" && AllDigits(d) && Value(d) == n < TWO_63
    && (raw == d || raw == "+" + d || (raw == "-" + d && n == 0))
  }

  /** A cap field is read as the number its trimmed text stands for, and refused exactly when it stands
      for none: when it is neither blank nor a non-negative 64-bit number. */
  lemma {:induction false} SecondsExactly(field: string)
    ensures forall n: int64 :: ParseSeconds(field) == Ok(n) <==> StandsFor(Trim(field), n)
  {
    var raw := Trim(field);
    forall n: int64 ensures ParseSeconds(field) == Ok(n) <==> StandsFor(raw, n) {
      if ParseSeconds(field) == Ok(n) && raw != "" {
        var signed := raw[0] == '+' || raw[0] == '-';
        var d := if signed then raw[1..] else raw;
        assert signed ==> raw == [raw[0]] + d;
        assert NumberText(raw, d, n);
      }
      if d :| NumberText(raw, d, n) {
        NumberRead(raw, d, n);
      }
    }
  }

  lemma {:induction false} NumberRead(raw: string, d: string, n: int64)
    requires NumberText(raw, d, n)
    ensures raw != "" && ParseInt(raw) == Some(n) && n >= 0
  {
    assert IsDigit(d[0]);
    if raw != d {
      assert raw[1..] == d;
    }
  }

  /** The lines of a list field are read one by one; each is trimmed, and blank ones are dropped. */
  lemma {:induction false} KeptConcat(a: seq<string>, b: seq<string>)
    ensures Kept(a + b) == Kept(a) + Kept(b)
    decreases |b|
  {
    if b == [] {
      assert a + b == a;
    } else {
      KeptConcat(a, b[..|b| - 1]);
      assert (a + b)[..|a + b| - 1] == a + b[..|b| - 1] && (a + b)[|a + b| - 1] == b[|b| - 1];
    }
  }

  lemma {:induction false} KeptOne(l: string)
    ensures Kept([l]) == if Trim(l) == "" then [] else [Trim(l)]
  {
    assert [l][..0] == [] && Kept([l]) == Kept([]) + KeptLine(l);
  }

  /** A line is cut at its first '=', and both sides are trimmed; without one it is a bare key. */
  lemma {:induction false} CutExactly(k: string, v: string)
    requires '=' !in k
    ensures KeyPart(k) == Trim(k) && ValuePart(k) == ""
    ensures KeyPart(k + "=" + v) == Trim(k) && ValuePart(k + "=" + v) == Trim(v)
  {
    FirstEqualsAt(k, "");
    assert k + "" == k && k[..|k|] == k;
    var line := k + "=" + v;
    assert line == k + ("=" + v);
    FirstEqualsAt(k, "=" + v);
    assert line[..|k|] == k && line[|k| + 1..] == v;
  }

  predicate Blank(line: string) {
    Trim(line) == ""
  }

  /** The line gives the key. */
  predicate Gives(line: string, key: string) {
    !Blank(line) && KeyPart(Trim(line)) == key
  }

  /** The value a key ends with: that of the last line that gives it. */
  predicate LastGives(lines: seq<string>, i: nat, key: string, value: string) {
    && i < |lines| && Gives(lines[i], key) && ValuePart(Trim(lines[i])) == value
    && forall j :: i < j < |lines| ==> !Gives(lines[j], key)
  }

  lemma {:induction false} LineRead(front: seq<string>, line: string, key: string)
    ensures
      var before, after := ParsedLines(front), ParsedLines(front + [line]);
      && (after.Ok? <==> before.Ok? && !Gives(line, ""))
      && (after.Ok? && Gives(line, key) ==> key in after.value && after.value[key] == ValuePart(Trim(line)))
      && (after.Ok? && !Gives(line, key) ==>
            (key in after.value <==> key in before.value) && (key in before.value ==> after.value[key] == before.value[key]))
  {
    assert (front + [line])[..|front + [line]| - 1] == front;
  }

  predicate NoneGives(lines: seq<string>, key: string) {
    forall i :: 0 <= i < |lines| ==> !Gives(lines[i], key)
  }

  lemma NoneGivesSnoc(front: seq<string>, line: string, key: string)
    ensures NoneGives(front + [line], key) <==> NoneGives(front, key) && !Gives(line, key)
  {
    assert forall i :: 0 <= i < |front| ==> (front + [line])[i] == front[i];
    assert (front + [line])[|front|] == line;
  }

  /** Extension lines are refused exactly when one that is not blank has an empty key; otherwise the
      map has exactly the keys they give. */
  lemma {:induction false} ExtensionsExactly(lines: seq<string>, key: string)
    ensures ParsedLines(lines).Ok? <==> NoneGives(lines, "")
    ensures ParsedLines(lines).Ok? ==> (key in ParsedLines(lines).value <==> !NoneGives(lines, key))
  {
    if lines != [] {
      var front, last := lines[..|lines| - 1], lines[|lines| - 1];
      assert lines == front + [last];
      ExtensionsExactly(front, key);
      LineRead(front, last, key);
      NoneGivesSnoc(front, last, "");
      NoneGivesSnoc(front, last, key);
    }
  }

  /** A key has the value of the last line that gives it. */
  lemma {:induction false} LastLineWins(lines: seq<string>, key: string) returns (i: nat)
    requires ParsedLines(lines).Ok? && key in ParsedLines(lines).value
    ensures LastGives(lines, i, key, ParsedLines(lines).value[key])
  {
    var front, last := lines[..|lines| - 1], lines[|lines| - 1];
    assert lines == front + [last];
    LineRead(front, last, key);
    if Gives(last, key) {
      i := |lines| - 1;
    } else {
      i := LastLineWins(front, key);
    }
  }

  lemma AssembledExactly(name: string, group: string, principals: seq<string>, hosts: seq<string>, uris: seq<string>,
                         user: Cap, host: Cap, x509: Cap, exts: Result<Extensions, FormError>)
    ensures
      var r := Assemble(name, group, principals, hosts, uris, user, host, x509, exts);
      && (r.Ok? <==> name != "" && group != "" && user.Ok? && host.Ok? && x509.Ok? && exts.Ok?)
      && (r.Ok? ==>
            && r.value.name == name && r.value.groupClaim == group
            && r.value.allowedPrincipals == principals && r.value.hostPatterns == hosts && r.value.spiffePatterns == uris
            && user == Ok(r.value.maxUserCertTTLSeconds) && host == Ok(r.value.maxHostCertTTLSeconds)
            && x509 == Ok(r.value.maxX509CertTTLSeconds) && exts == Ok(r.value.defaultExtensions))
  {
  }

  /** A form is accepted exactly when name and group are not blank, each cap stands for a number and no
      extension line has an empty key; the role has the name and group trimmed, the numbers the caps
      stand for, and the lines and extensions just described. */
  lemma {:induction false} FormParsedExactly(f: Form)
    ensures
      var r := Parse(f);
      var user, host := ParseSeconds(f.maxUserCertTTLSeconds), ParseSeconds(f.maxHostCertTTLSeconds);
      var x509, exts := ParseSeconds(f.maxX509CertTTLSeconds), ParsedLines(Split(f.defaultExtensions));
      && (r.Ok? <==>
            && !Blank(f.name) && !Blank(f.groupClaim) && user.Ok? && host.Ok? && x509.Ok?
            && NoneGives(Split(f.defaultExtensions), ""))
      && (r.Ok? ==>
            && r.value.name == Trim(f.name) && r.value.groupClaim == Trim(f.groupClaim)
            && r.value.allowedPrincipals == Kept(Split(f.allowedPrincipals))
            && r.value.hostPatterns == Kept(Split(f.hostPatterns))
            && r.value.spiffePatterns == Kept(Split(f.spiffePatterns))
            && user == Ok(r.value.maxUserCertTTLSeconds) && host == Ok(r.value.maxHostCertTTLSeconds)
            && x509 == Ok(r.value.maxX509CertTTLSeconds) && exts == Ok(r.value.defaultExtensions))
  {
    ExtensionsExactly(Split(f.defaultExtensions), "");
    AssembledExactly(Trim(f.name), Trim(f.groupClaim),
                     Kept(Split(f.allowedPrincipals)), Kept(Split(f.hostPatterns)), Kept(Split(f.spiffePatterns)),
                     ParseSeconds(f.maxUserCertTTLSeconds), ParseSeconds(f.maxHostCertTTLSeconds),
                     ParseSeconds(f.maxX509CertTTLSeconds), ParsedLines(Split(f.defaultExtensions)));
  }

  lemma SecondsRefusedBecause(field: string)
    ensures ParseSeconds(field).Err? ==>
      match ParseSeconds(field).error
      case BadNumber(raw) => raw == Trim(field) && raw != "" && ParseInt(raw) == None
      case NegativeNumber => ParseInt(Trim(field)).Some? && ParseInt(Trim(field)).value < 0
      case _ => false
  {
  }

  /** The line refused is the first with an empty key. */
  predicate FirstEmptyKey(lines: seq<string>, i: nat, line: string) {
    i < |lines| && Gives(lines[i], "") && line == Trim(lines[i]) && NoneGives(lines[..i], "")
  }

  lemma {:induction false} ExtensionsRefusedBecause(lines: seq<string>) returns (i: nat)
    requires ParsedLines(lines).Err?
    ensures ParsedLines(lines).error.EmptyKey? && FirstEmptyKey(lines, i, ParsedLines(lines).error.line)
  {
    var front := lines[..|lines| - 1];
    ExtensionsExactly(front, "");
    if ParsedLines(front).Err? {
      i := ExtensionsRefusedBecause(front);
      assert front[..i] == lines[..i];
    } else {
      i := |lines| - 1;
    }
  }

  lemma AssembledErrors(name: string, group: string, principals: seq<string>, hosts: seq<string>, uris: seq<string>,
                        user: Cap, host: Cap, x509: Cap, exts: Result<Extensions, FormError>)
    ensures
      var r := Assemble(name, group, principals, hosts, uris, user, host, x509, exts);
      && (name == "" ==> r == Err(NameRequired))
      && (name != "" && group == "" ==> r == Err(GroupClaimRequired))
      && (name != "" && group != "" && user.Err? ==> r == Err(user.error))
      && (name != "" && group != "" && user.Ok? && host.Err? ==> r == Err(host.error))
      && (name != "" && group != "" && user.Ok? && host.Ok? && x509.Err? ==> r == Err(x509.error))
      && (name != "" && group != "" && user.Ok? && host.Ok? && x509.Ok? && exts.Err? ==> r == Err(exts.error))
  {
  }

  /** The error shown is that of the first thing wrong: name, group, the three caps, the extensions. */
  lemma {:induction false} FormRefusedBecause(f: Form)
    ensures
      var r := Parse(f);
      var user, host := ParseSeconds(f.maxUserCertTTLSeconds), ParseSeconds(f.maxHostCertTTLSeconds);
      var x509, exts := ParseSeconds(f.maxX509CertTTLSeconds), ParsedLines(Split(f.defaultExtensions));
      && (Blank(f.name) ==> r == Err(NameRequired))
      && (!Blank(f.name) && Blank(f.groupClaim) ==> r == Err(GroupClaimRequired))
      && (!Blank(f.name) && !Blank(f.groupClaim) && r.Err? ==>
            r.error == (if user.Err? then user.error else if host.Err? then host.error else if x509.Err? then x509.error
                        else if exts.Err? then exts.error else NameRequired))
  {
    AssembledErrors(Trim(f.name), Trim(f.groupClaim),
                    Kept(Split(f.allowedPrincipals)), Kept(Split(f.hostPatterns)), Kept(Split(f.spiffePatterns)),
                    ParseSeconds(f.maxUserCertTTLSeconds), ParseSeconds(f.maxHostCertTTLSeconds),
                    ParseSeconds(f.maxX509CertTTLSeconds), ParsedLines(Split(f.defaultExtensions)));
    FormParsedExactly(f);
  }

  /** What the form shows of plain extensions: one line per key in order, bare where the value is empty.
      A cap of zero is shown blank. */
  lemma {:induction false} ShownExactly(text: string, m: Extensions, keys: seq<string>)
    requires PlainExtensions(m) && RendersWith(text, m, keys) && keys != []
    ensures Sorted(Less, keys) && |Split(text)| == |keys|
    ensures forall i :: 0 <= i < |keys| ==> keys[i] in m && Split(text)[i] == if m[keys[i]] == "" then keys[i] else keys[i] + "=" + m[keys[i]]
    ensures forall n: int64 :: SecsString(n) == "" <==> n == 0
  {
    EntriesPlain(keys, m);
    TextSplits(keys, m);
    forall i | 0 <= i < |keys| ensures Split(text)[i] == if m[keys[i]] == "" then keys[i] else keys[i] + "=" + m[keys[i]] {
      assert Split(text)[i] == ExtensionLine(keys[i], m[keys[i]]);
    }
    forall n: int64 ensures SecsString(n) == "" <==> n == 0 {
      if n > 0 {
        DigitsDenote(n);
      }
    }
  }
}
