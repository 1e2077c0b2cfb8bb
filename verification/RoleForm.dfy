/** The portal's role form: parsing the submitted fields and filling them in again. */
module RoleForm {
  import opened Wrappers
  import opened Durations
  import opened Sorting
  import opened Decimal
  import opened Text
  import opened Trimming
  import opened Roles

  datatype Form = Form(
    name: string,
    groupClaim: string,
    allowedPrincipals: string,
    hostPatterns: string,
    spiffePatterns: string,
    maxUserCertTTLSeconds: string,
    maxHostCertTTLSeconds: string,
    maxX509CertTTLSeconds: string,
    defaultExtensions: string)

  datatype FormError =
    | NameRequired
    | GroupClaimRequired
    | BadNumber(raw: string)
    | NegativeNumber
    | EmptyKey(line: string)

  type Extensions = map<string, string>

  // -------------------------------------------------------------------------------------
  // Parsing
  // -------------------------------------------------------------------------------------

  function KeptLine(line: string): seq<string> {
    if Trim(line) != "" then [Trim(line)] else []
  }

  function Kept(lines: seq<string>): seq<string> {
    if lines == [] then [] else Kept(lines[..|lines| - 1]) + KeptLine(lines[|lines| - 1])
  }

  method SplitLines(raw: string) returns (out: seq<string>)
    ensures out == Kept(Split(raw))
  {
    if raw == "" {
      return [];
    }
    out := [];
    var lines := Split(raw);
    for i := 0 to |lines|
      invariant out == Kept(lines[..i])
    {
      assert lines[..i + 1][..i] == lines[..i];
      var v := Trim(lines[i]);
      if v != "" {
        out := out + [v];
      }
    }
    assert lines[..|lines|] == lines;
  }

  /** Where the first '=' stands, or the length if there is none: `strings.Cut`. */
  function FirstEquals(s: string): (r: nat)
    ensures r <= |s| && '=' !in s[..r]
    ensures r < |s| ==> s[r] == '='
  {
    if s == "" || s[0] == '=' then 0 else 1 + FirstEquals(s[1..])
  }

  function KeyPart(line: string): string {
    Trim(line[..FirstEquals(line)])
  }

  function ValuePart(line: string): string {
    if FirstEquals(line) < |line| then Trim(line[FirstEquals(line) + 1..]) else ""
  }

  function ParsedLine(m: Extensions, raw: string): Result<Extensions, FormError> {
    var line := Trim(raw);
    if line == "" then Ok(m)
    else if KeyPart(line) == "" then Err(EmptyKey(line))
    else Ok(m[KeyPart(line) := ValuePart(line)])
  }

  function ParsedLines(lines: seq<string>): Result<Extensions, FormError> {
    if lines == [] then Ok(map[])
    else
      var before := ParsedLines(lines[..|lines| - 1]);
      if before.Err? then before else ParsedLine(before.value, lines[|lines| - 1])
  }

  method ParseExtensions(raw: string) returns (r: Result<Extensions, FormError>)
    ensures r == ParsedLines(Split(raw))
  {
    if Trim(raw) == "" {
      BlankHasNoLines(raw);
      return Ok(map[]);
    }
    var out: Extensions := map[];
    var lines := Split(raw);
    for i := 0 to |lines|
      invariant ParsedLines(lines[..i]) == Ok(out)
    {
      assert lines[..i + 1][..i] == lines[..i];
      var line := Trim(lines[i]);
      if line == "" {
        continue;
      }
      var eq := FirstEquals(line);
      var key := Trim(line[..eq]);
      if key == "" {
        ErrorStays(lines, i + 1);
        return Err(EmptyKey(line));
      }
      if eq < |line| {
        out := out[key := Trim(line[eq + 1..])];
      } else {
        out := out[key := ""];
      }
    }
    assert lines[..|lines|] == lines;
    r := Ok(out);
  }

  lemma {:induction false} ErrorStays(lines: seq<string>, k: nat)
    requires k <= |lines| && ParsedLines(lines[..k]).Err?
    ensures ParsedLines(lines) == ParsedLines(lines[..k])
    decreases |lines|
  {
    if k == |lines| {
      assert lines[..k] == lines;
    } else {
      assert lines[..|lines| - 1][..k] == lines[..k];
      ErrorStays(lines[..|lines| - 1], k);
    }
  }

  lemma {:induction false} AllSpace(s: string)
    ensures Trim(s) == "" <==> forall c :: c in s ==> IsSpace(c)
  {
    if s != "" {
      if IsSpace(s[0]) {
        AllSpace(s[1..]);
        assert s == [s[0]] + s[1..];
      } else {
        assert TrimLeft(s) == s;
        AllSpaceRight(s);
      }
    }
  }

  lemma {:induction false} AllSpaceRight(s: string)
    requires s != "" && !IsSpace(s[0])
    ensures TrimRight(s) != ""
  {
    if IsSpace(s[|s| - 1]) {
      AllSpaceRight(s[..|s| - 1]);
    }
  }

  lemma {:induction false} SplitMembers(s: string)
    ensures forall i, c :: 0 <= i < |Split(s)| && c in Split(s)[i] ==> c in s
  {
    if s != "" {
      SplitMembers(s[1..]);
      assert s == [s[0]] + s[1..];
    }
  }

  lemma {:induction false} BlankLines(lines: seq<string>)
    requires forall i :: 0 <= i < |lines| ==> Trim(lines[i]) == ""
    ensures ParsedLines(lines) == Ok(map[])
  {
    if lines != [] {
      BlankLines(lines[..|lines| - 1]);
    }
  }

  /** The early return for a blank field gives what the loop would. */
  lemma {:induction false} BlankHasNoLines(raw: string)
    requires Trim(raw) == ""
    ensures ParsedLines(Split(raw)) == Ok(map[])
  {
    AllSpace(raw);
    SplitMembers(raw);
    forall i | 0 <= i < |Split(raw)| ensures Trim(Split(raw)[i]) == "" {
      AllSpace(Split(raw)[i]);
    }
    BlankLines(Split(raw));
  }

  /** `strconv.ParseInt(s, 10, 64)`. */
  function ParseInt(s: string): Option<int64> {
    var signed := s != "" && (s[0] == '+' || s[0] == '-');
    var digits := if signed then s[1..] else s;
    if digits == "" || !AllDigits(digits) then None
    else
      var v: int := if signed && s[0] == '-' then 0 - Value(digits) else Value(digits);
      if -TWO_63 <= v < TWO_63 then Some(v) else None
  }

  function ParseSeconds(field: string): Result<int64, FormError> {
    var raw := Trim(field);
    if raw == "" then Ok(0)
    else
      var n := ParseInt(raw);
      if n.None? then Err(BadNumber(raw))
      else if n.value < 0 then Err(NegativeNumber)
      else Ok(n.value)
  }

  type Cap = Result<int64, FormError>

  /** A role from its parsed fields: the first failing check wins. */
  function Assemble(name: string, group: string, principals: seq<string>, hosts: seq<string>, uris: seq<string>,
                    user: Cap, host: Cap, x509: Cap, exts: Result<Extensions, FormError>): Result<Role, FormError>
  {
    if name == "" then Err(NameRequired)
    else if group == "" then Err(GroupClaimRequired)
    else if user.Err? then Err(user.error)
    else if host.Err? then Err(host.error)
    else if x509.Err? then Err(x509.error)
    else if exts.Err? then Err(exts.error)
    else Ok(Role(name, group, principals, hosts, uris, user.value, host.value, x509.value, exts.value))
  }

  /** `parseRoleForm` as a function. */
  function Parse(f: Form): Result<Role, FormError> {
    Assemble(Trim(f.name), Trim(f.groupClaim),
             Kept(Split(f.allowedPrincipals)), Kept(Split(f.hostPatterns)), Kept(Split(f.spiffePatterns)),
             ParseSeconds(f.maxUserCertTTLSeconds), ParseSeconds(f.maxHostCertTTLSeconds),
             ParseSeconds(f.maxX509CertTTLSeconds), ParsedLines(Split(f.defaultExtensions)))
  }

  /** The first field that does not parse. */
  predicate FirstBad(fields: seq<string>, k: nat) {
    k < |fields| && ParseSeconds(fields[k]).Err? && forall j :: 0 <= j < k ==> ParseSeconds(fields[j]).Ok?
  }

  /** The loop over the caps: a blank field leaves its cap at zero. */
  method ParseCaps(fields: seq<string>) returns (r: Result<seq<int64>, FormError>)
    ensures r.Ok? ==> |r.value| == |fields| && forall k :: 0 <= k < |fields| ==> ParseSeconds(fields[k]) == Ok(r.value[k])
    ensures r.Err? ==> exists k: nat :: FirstBad(fields, k) && ParseSeconds(fields[k]).error == r.error
  {
    var caps: seq<int64> := [];
    for i := 0 to |fields|
      invariant |caps| == i && forall k :: 0 <= k < i ==> ParseSeconds(fields[k]) == Ok(caps[k])
    {
      var raw, cap: int64 := Trim(fields[i]), 0;
      if raw != "" {
        var secs := ParseInt(raw);
        if secs.None? {
          assert FirstBad(fields, i);
          return Err(BadNumber(raw));
        }
        if secs.value < 0 {
          assert FirstBad(fields, i);
          return Err(NegativeNumber);
        }
        cap := secs.value;
      }
      caps := caps + [cap];
    }
    r := Ok(caps);
  }

  lemma CapsAgree(a: Cap, b: Cap, c: Cap, fields: seq<string>, r: Result<seq<int64>, FormError>)
    requires |fields| == 3
    requires a == ParseSeconds(fields[0]) && b == ParseSeconds(fields[1]) && c == ParseSeconds(fields[2])
    requires r.Ok? ==> |r.value| == 3 && forall k :: 0 <= k < 3 ==> ParseSeconds(fields[k]) == Ok(r.value[k])
    requires r.Err? ==> exists k: nat :: FirstBad(fields, k) && ParseSeconds(fields[k]).error == r.error
    ensures r.Ok? ==> a == Ok(r.value[0]) && b == Ok(r.value[1]) && c == Ok(r.value[2])
    ensures r.Err? ==>
      || (a.Err? && r.error == a.error)
      || (a.Ok? && b.Err? && r.error == b.error)
      || (a.Ok? && b.Ok? && c.Err? && r.error == c.error)
  {
  }

  method ParseRoleForm(f: Form) returns (r: Result<Role, FormError>)
    ensures r == Parse(f)
  {
    var name, group := Trim(f.name), Trim(f.groupClaim);
    if name == "" {
      return Err(NameRequired);
    }
    if group == "" {
      return Err(GroupClaimRequired);
    }
    var principals := SplitLines(f.allowedPrincipals);
    var hosts := SplitLines(f.hostPatterns);
    var uris := SplitLines(f.spiffePatterns);
    var fields := [f.maxUserCertTTLSeconds, f.maxHostCertTTLSeconds, f.maxX509CertTTLSeconds];
    var caps := ParseCaps(fields);
    CapsAgree(ParseSeconds(fields[0]), ParseSeconds(fields[1]), ParseSeconds(fields[2]), fields, caps);
    if caps.Err? {
      return Err(caps.error);
    }
    var exts := ParseExtensions(f.defaultExtensions);
    if exts.Err? {
      return Err(exts.error);
    }
    r := Ok(Role(name, group, principals, hosts, uris, caps.value[0], caps.value[1], caps.value[2], exts.value));
  }

  // -------------------------------------------------------------------------------------
  // Filling in
  // -------------------------------------------------------------------------------------

  function SecsString(n: int64): string {
    if n == 0 then "" else if n < 0 then "-" + Digits(0 - n) else Digits(n)
  }

  function ExtensionLine(k: string, v: string): string {
    k + if v != "" then "=" + v else ""
  }

  function ExtensionText(keys: seq<string>, m: Extensions): string
    requires forall i :: 0 <= i < |keys| ==> keys[i] in m
  {
    if keys == [] then ""
    else
      var k := keys[|keys| - 1];
      ExtensionText(keys[..|keys| - 1], m) + ExtensionLine(k, m[k]) + "\n"
  }

  /** `strings.TrimRight(s, "\n")`. */
  function TrimNewlines(s: string): string {
    if s != "" && s[|s| - 1] == '\n' then TrimNewlines(s[..|s| - 1]) else s
  }

  /** The keys of the map, each once, in order. */
  ghost predicate SortedKeys(keys: seq<string>, m: Extensions) {
    Sorted(Less, keys) && multiset(keys) == multiset(m.Keys)
  }

  lemma SortedKeysMembers(keys: seq<string>, m: Extensions)
    requires SortedKeys(keys, m)
    ensures forall k :: k in keys <==> k in m
    ensures forall i :: 0 <= i < |keys| ==> keys[i] in m
  {
    forall k ensures k in keys <==> k in m {
      assert k in keys <==> k in multiset(keys);
      assert k in m.Keys <==> k in multiset(m.Keys);
    }
  }

  /** `text` is what `extensionsToForm` writes for `m`. */
  ghost predicate Renders(text: string, m: Extensions) {
    exists keys :: RendersWith(text, m, keys)
  }

  ghost predicate RendersWith(text: string, m: Extensions, keys: seq<string>) {
    && SortedKeys(keys, m) && (forall i :: 0 <= i < |keys| ==> keys[i] in m)
    && text == TrimNewlines(ExtensionText(keys, m))
  }

  /** Rendering is deterministic: the order in which a map yields its keys cannot show. */
  lemma RenderingUnique(a: string, b: string, m: Extensions)
    requires Renders(a, m) && Renders(b, m)
    ensures a == b
  {
    var ka :| RendersWith(a, m, ka);
    var kb :| RendersWith(b, m, kb);
    LessIsOrder(ka);
    SortedUnique(Less, ka, kb);
  }

  /** The keys, in whatever order the map yields them. */
  method CollectKeys(m: Extensions) returns (keys: seq<string>)
    ensures multiset(keys) == multiset(m.Keys)
  {
    keys := [];
    var rest := m.Keys;
    while rest != {}
      invariant rest <= m.Keys && multiset(keys) + multiset(rest) == multiset(m.Keys)
      decreases |rest|
    {
      var k :| k in rest;
      keys := keys + [k];
      rest := rest - {k};
    }
  }

  method WriteExtensions(keys: seq<string>, m: Extensions) returns (b: string)
    requires forall i :: 0 <= i < |keys| ==> keys[i] in m
    ensures b == ExtensionText(keys, m)
  {
    b := "";
    for i := 0 to |keys|
      invariant b == ExtensionText(keys[..i], m)
    {
      assert keys[..i + 1][..i] == keys[..i];
      var line := keys[i];
      var v := m[keys[i]];
      if v != "" {
        line := line + ("=" + v);
      }
      b := b + line + "\n";
    }
    assert keys[..|keys|] == keys;
  }

  method ExtensionsToForm(m: Extensions) returns (text: string)
    ensures Renders(text, m)
  {
    if |m| == 0 {
      assert RendersWith("", m, []);
      return "";
    }
    var keys := CollectKeys(m);
    var a := new string[|keys|](i requires 0 <= i < |keys| => keys[i]);
    assert a[..] == keys;
    SortInPlace(a);
    SortStringsSound(keys);
    var sorted := a[..];
    SortedKeysMembers(sorted, m);
    var b := WriteExtensions(sorted, m);
    text := TrimNewlines(b);
    assert RendersWith(text, m, sorted);
  }

  function Filled(r: Role, extensions: string): Form {
    Form(r.name, r.groupClaim, Join(r.allowedPrincipals), Join(r.hostPatterns), Join(r.spiffePatterns),
         SecsString(r.maxUserCertTTLSeconds), SecsString(r.maxHostCertTTLSeconds),
         SecsString(r.maxX509CertTTLSeconds), extensions)
  }

  /** `f` is the form `roleToForm` fills in for `r`. */
  ghost predicate FormOf(f: Form, r: Role) {
    f == Filled(r, f.defaultExtensions) && Renders(f.defaultExtensions, r.defaultExtensions)
  }

  method RoleToForm(r: Role) returns (f: Form)
    ensures FormOf(f, r)
  {
    var text := ExtensionsToForm(r.defaultExtensions);
    f := Filled(r, text);
  }
}
