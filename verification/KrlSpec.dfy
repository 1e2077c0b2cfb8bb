/** The KRL spec file: what `MarshalSpec` writes, and what a reader of its directive lines gets. */
module KrlSpec {
  import opened Wrappers
  import opened Sorting
  import opened Decimal
  import opened Text
  import opened Krl

  datatype SerialEntry = SerialEntry(serial: uint64, annot: string)

  datatype KeyIDEntry = KeyIDEntry(keyID: string, annot: string)

  // -------------------------------------------------------------------------------------
  // Writing
  // -------------------------------------------------------------------------------------

  /** `strings.ReplaceAll(s, "\n", " ")`. */
  function Spaced(s: string): string {
    seq(|s|, i requires 0 <= i < |s| => if s[i] == '\n' then ' ' else s[i])
  }

  function Annotation(r: Revocation): string {
    (if r.reason != "" then "reason: " + Spaced(r.reason) else "")
    + (if r.reason != "" && r.revoker != "" then " | " else "")
    + (if r.revoker != "" then "revoker: " + r.revoker else "")
  }

  /** A reason is shown with its newlines as spaces and nothing else changed; reason and revoker are
      joined by a bar, and an entry with neither has no comment. */
  lemma AnnotationExactly(r: Revocation)
    ensures |Spaced(r.reason)| == |r.reason| && OneLine(Spaced(r.reason))
    ensures forall i :: 0 <= i < |r.reason| && r.reason[i] != '\n' ==> Spaced(r.reason)[i] == r.reason[i]
    ensures r.reason == "" && r.revoker == "" ==> Annotation(r) == ""
    ensures r.reason != "" && r.revoker == "" ==> Annotation(r) == "reason: " + Spaced(r.reason)
    ensures r.reason == "" && r.revoker != "" ==> Annotation(r) == "revoker: " + r.revoker
    ensures r.reason != "" && r.revoker != "" ==> Annotation(r) == "reason: " + Spaced(r.reason) + " | revoker: " + r.revoker
  {
  }

  function SerialEntries(es: seq<Revocation>): seq<SerialEntry> {
    if es == [] then []
    else
      var e := es[|es| - 1];
      SerialEntries(es[..|es| - 1]) + (if e.serial != 0 then [SerialEntry(e.serial, Annotation(e))] else [])
  }

  function KeyIDEntries(es: seq<Revocation>): seq<KeyIDEntry> {
    if es == [] then []
    else
      var e := es[|es| - 1];
      KeyIDEntries(es[..|es| - 1]) + (if e.keyID != "" then [KeyIDEntry(e.keyID, Annotation(e))] else [])
  }

  predicate SerialLess(a: SerialEntry, b: SerialEntry) {
    a.serial < b.serial
  }

  predicate KeyIDLess(a: KeyIDEntry, b: KeyIDEntry) {
    Less(a.keyID, b.keyID)
  }

  const TITLE := "certd KRL spec"
  const NOTHING := "(empty — no revocations recorded)"

  function Comment(annot: string): string {
    if annot == "" then "" else "# " + annot + "\n"
  }

  function SerialLine(serial: uint64): string {
    "serial: " + Digits(serial)
  }

  function KeyIDLine(keyID: string): string {
    "id: " + keyID
  }

  function SerialText(ss: seq<SerialEntry>): string {
    if ss == [] then ""
    else
      var s := ss[|ss| - 1];
      SerialText(ss[..|ss| - 1]) + Comment(s.annot) + SerialLine(s.serial) + "\n"
  }

  function KeyIDText(ks: seq<KeyIDEntry>): string {
    if ks == [] then ""
    else
      var k := ks[|ks| - 1];
      KeyIDText(ks[..|ks| - 1]) + Comment(k.annot) + KeyIDLine(k.keyID) + "\n"
  }

  /** The file for the two groups in the order given. */
  function Render(stamp: string, ss: seq<SerialEntry>, ks: seq<KeyIDEntry>): string {
    Comment(TITLE) + Comment("generated " + stamp)
    + if ss == [] && ks == [] then Comment(NOTHING) else SerialText(ss) + KeyIDText(ks)
  }

  lemma TitleLine()
    ensures Comment(TITLE) == "# certd KRL spec" + "\n" && Comment(NOTHING) == "# " + NOTHING + "\n"
  {
    assert "# " + TITLE == "# certd KRL spec";
  }

  lemma StampLine(stamp: string)
    ensures Comment("generated " + stamp) == "# generated " + stamp + "\n"
  {
    assert "# " + ("generated " + stamp) == "# generated " + stamp;
  }

  /** The file's two header lines, and its only other line when there is nothing to list. */
  lemma {:induction false} HeaderExactly(stamp: string, ss: seq<SerialEntry>, ks: seq<KeyIDEntry>)
    ensures Render(stamp, ss, ks) == ("# certd KRL spec" + "\n") + ("# generated " + stamp + "\n")
            + if ss == [] && ks == [] then "# " + NOTHING + "\n" else SerialText(ss) + KeyIDText(ks)
  {
    TitleLine();
    StampLine(stamp);
  }

  /** One entry: a comment line if there is something to say, and then its directive. */
  function SerialPiece(s: SerialEntry): string {
    (if s.annot == "" then "" else "# " + s.annot + "\n") + ("serial: " + Digits(s.serial) + "\n")
  }

  function KeyIDPiece(k: KeyIDEntry): string {
    (if k.annot == "" then "" else "# " + k.annot + "\n") + ("id: " + k.keyID + "\n")
  }

  lemma PieceGroups(text: string, comment: string, line: string)
    ensures text + comment + line + "\n" == text + (comment + (line + "\n"))
  {
  }

  lemma {:induction false} SerialTextSnoc(front: seq<SerialEntry>, s: SerialEntry)
    ensures SerialText(front + [s]) == SerialText(front) + SerialPiece(s)
  {
    assert (front + [s])[..|front + [s]| - 1] == front;
    PieceGroups(SerialText(front), Comment(s.annot), SerialLine(s.serial));
  }

  lemma {:induction false} KeyIDTextSnoc(front: seq<KeyIDEntry>, k: KeyIDEntry)
    ensures KeyIDText(front + [k]) == KeyIDText(front) + KeyIDPiece(k)
  {
    assert (front + [k])[..|front + [k]| - 1] == front;
    PieceGroups(KeyIDText(front), Comment(k.annot), KeyIDLine(k.keyID));
  }

  /** A function that grows by one piece per element is the pieces in order. */
  lemma {:induction false} InPieces<A(!new), B>(f: A -> seq<B>, g: seq<A> -> seq<B>, xs: seq<A>)
    requires g([]) == [] && forall front: seq<A>, x: A :: g(front + [x]) == g(front) + f(x)
    ensures g(xs) == FlatMap(f, xs)
  {
    if xs != [] {
      var front, x := xs[..|xs| - 1], xs[|xs| - 1];
      InPieces(f, g, front);
      FlatMapSnoc(f, front, x);
      assert xs == front + [x];
    }
  }

  /** The entries of a group are written one after the other, each as its piece. */
  lemma {:induction false} SerialsInOrder(ss: seq<SerialEntry>)
    ensures SerialText(ss) == FlatMap(SerialPiece, ss)
  {
    forall front: seq<SerialEntry>, s: SerialEntry ensures SerialText(front + [s]) == SerialText(front) + SerialPiece(s) {
      SerialTextSnoc(front, s);
    }
    InPieces(SerialPiece, SerialText, ss);
  }

  lemma {:induction false} KeyIDsInOrder(ks: seq<KeyIDEntry>)
    ensures KeyIDText(ks) == FlatMap(KeyIDPiece, ks)
  {
    forall front: seq<KeyIDEntry>, k: KeyIDEntry ensures KeyIDText(front + [k]) == KeyIDText(front) + KeyIDPiece(k) {
      KeyIDTextSnoc(front, k);
    }
    InPieces(KeyIDPiece, KeyIDText, ks);
  }

  lemma {:induction false} FlatMapSnoc<A, B>(f: A -> seq<B>, xs: seq<A>, x: A)
    ensures FlatMap(f, xs + [x]) == FlatMap(f, xs) + f(x)
  {
    FlatMapConcat(f, xs, [x]);
    assert [x][1..] == [] && f(x) + [] == f(x);
  }

  /** The two groups of a snapshot's entries, each sorted, ties in any order. */
  ghost predicate Arranged(es: seq<Revocation>, ss: seq<SerialEntry>, ks: seq<KeyIDEntry>) {
    && Sorted(SerialLess, ss) && multiset(ss) == multiset(SerialEntries(es))
    && Sorted(KeyIDLess, ks) && multiset(ks) == multiset(KeyIDEntries(es))
  }

  /** Both groups ascend: the serials as numbers, the key ids as in a dictionary. */
  lemma Ascending(es: seq<Revocation>, ss: seq<SerialEntry>, ks: seq<KeyIDEntry>)
    requires Arranged(es, ss, ks)
    ensures forall i, j :: 0 <= i < j < |ss| ==> ss[i].serial <= ss[j].serial
    ensures forall i, j :: 0 <= i < j < |ks| ==> !Less(ks[j].keyID, ks[i].keyID)
  {
  }

  /** `text` is a file for the entries: ties may stand in either order, as `sort.Slice` leaves them. */
  ghost predicate Marshals(text: string, es: seq<Revocation>, stamp: string) {
    exists ss, ks :: Arranged(es, ss, ks) && text == Render(stamp, ss, ks)
  }

  /** Partitions the entries, sorts each group and writes them out. */
  method MarshalSpec(entries: seq<Revocation>, stamp: string) returns (text: string)
    ensures Marshals(text, entries, stamp)
  {
    var serials, keyIDs := [], [];
    for i := 0 to |entries|
      invariant serials == SerialEntries(entries[..i]) && keyIDs == KeyIDEntries(entries[..i])
    {
      var e := entries[i];
      assert entries[..i + 1][..i] == entries[..i];
      var annot := Annotation(e);
      if e.serial != 0 {
        serials := serials + [SerialEntry(e.serial, annot)];
      }
      if e.keyID != "" {
        keyIDs := keyIDs + [KeyIDEntry(e.keyID, annot)];
      }
    }
    assert entries[..|entries|] == entries;
    MarshalArranges(entries);
    serials := Sort(SerialLess, serials);
    keyIDs := Sort(KeyIDLess, keyIDs);
    text := Comment(TITLE);
    text := text + Comment("generated " + stamp);
    if |serials| == 0 && |keyIDs| == 0 {
      text := text + Comment(NOTHING);
      return;
    }
    var body := WriteSerials(serials);
    var rest := WriteKeyIDs(keyIDs);
    text := text + (body + rest);
  }

  method WriteSerials(ss: seq<SerialEntry>) returns (b: string)
    ensures b == SerialText(ss)
  {
    b := "";
    for i := 0 to |ss|
      invariant b == SerialText(ss[..i])
    {
      assert ss[..i + 1][..i] == ss[..i];
      b := b + Comment(ss[i].annot);
      b := b + SerialLine(ss[i].serial) + "\n";
    }
    assert ss[..|ss|] == ss;
  }

  method WriteKeyIDs(ks: seq<KeyIDEntry>) returns (b: string)
    ensures b == KeyIDText(ks)
  {
    b := "";
    for i := 0 to |ks|
      invariant b == KeyIDText(ks[..i])
    {
      assert ks[..i + 1][..i] == ks[..i];
      b := b + Comment(ks[i].annot);
      b := b + KeyIDLine(ks[i].keyID) + "\n";
    }
    assert ks[..|ks|] == ks;
  }

  // -------------------------------------------------------------------------------------
  // Reading
  // -------------------------------------------------------------------------------------

  datatype Directive = Serial(n: Option<uint64>) | Id(keyID: string)

  /** The directive on a line, if it is one; every other line is a comment. */
  function DirectiveOf(line: string): Option<Directive> {
    if "serial: " <= line then Some(Serial(ParseUint64(line[8..])))
    else if "id: " <= line then Some(Id(line[4..]))
    else None
  }

  function Found(line: string): seq<Directive> {
    var d := DirectiveOf(line);
    if d.Some? then [d.value] else []
  }

  function FlatMap<A, B>(f: A -> seq<B>, xs: seq<A>): seq<B> {
    if xs == [] then [] else f(xs[0]) + FlatMap(f, xs[1..])
  }

  function Collect(lines: seq<string>): seq<Directive> {
    FlatMap(Found, lines)
  }

  function Read(text: string): seq<Directive> {
    Collect(Split(text))
  }

  lemma {:induction false} FlatMapConcat<A, B>(f: A -> seq<B>, a: seq<A>, b: seq<A>)
    ensures FlatMap(f, a + b) == FlatMap(f, a) + FlatMap(f, b)
  {
    if a == [] {
      assert a + b == b;
    } else {
      FlatMapConcat(f, a[1..], b);
      assert (a + b)[0] == a[0] && (a + b)[1..] == a[1..] + b;
    }
  }

  lemma {:induction false} FlatMapEmpty<A, B>(f: A -> seq<B>, xs: seq<A>)
    ensures FlatMap(f, xs) == [] <==> forall i :: 0 <= i < |xs| ==> f(xs[i]) == []
  {
    if xs != [] {
      FlatMapEmpty(f, xs[1..]);
      assert forall i :: 1 <= i < |xs| ==> xs[i] == xs[1..][i - 1];
    }
  }

  /** Text in whole lines reads piece by piece. */
  lemma ReadLines(a: string, b: string)
    ensures Read(a + "\n" + b) == Read(a) + Read(b)
  {
    SplitAt(a, b);
    FlatMapConcat(Found, Split(a), Split(b));
  }

  // -------------------------------------------------------------------------------------
  // Reading back what was written
  // -------------------------------------------------------------------------------------

  /** The directives a comment's text lets slip: those on lines after its first. */
  function Noise(annot: string): seq<Directive> {
    if annot == "" then [] else Collect(Split(annot)[1..])
  }

  lemma OtherHead(p: string, s: string)
    requires p != "" && s != "" && p[0] != s[0]
    ensures !(p <= s)
  {
  }

  lemma CommentIsNoDirective(s: string)
    ensures DirectiveOf("# " + s) == None
  {
    OtherHead("serial: ", "# " + s);
    OtherHead("id: ", "# " + s);
  }

  lemma {:induction false} SerialDirective(d: string)
    ensures DirectiveOf("serial: " + d) == Some(Serial(ParseUint64(d)))
  {
    assert ("serial: " + d)[8..] == d;
  }

  lemma IdDirective(k: string)
    ensures DirectiveOf("id: " + k) == Some(Id(k))
  {
    assert ("id: " + k)[4..] == k;
    OtherHead("serial: ", "id: " + k);
  }

  /** Text after a one-line prefix: the prefix decides the first line only. */
  lemma {:induction false} ReadPrefixed(prefix: string, s: string)
    requires OneLine(prefix)
    ensures Read(prefix + s) == Found(prefix + Split(s)[0]) + Collect(Split(s)[1..])
  {
    SplitPrefix(prefix, s);
    assert Split(prefix + s)[1..] == Split(s)[1..];
  }

  lemma ReadComment(annot: string, rest: string)
    ensures Read(Comment(annot) + rest) == Noise(annot) + Read(rest)
  {
    if annot == "" {
      assert Comment(annot) + rest == rest;
    } else {
      ReadLines("# " + annot, rest);
      ReadCommentLine(annot);
    }
  }

  lemma {:induction false} ReadCommentLine(annot: string)
    ensures Read("# " + annot) == Collect(Split(annot)[1..])
  {
    ReadPrefixed("# ", annot);
    CommentIsNoDirective(Split(annot)[0]);
  }

  lemma ReadSerial(n: uint64)
    ensures Read(SerialLine(n)) == [Serial(Some(n))]
  {
    var d := Digits(n);
    DigitsDenote(n);
    assert OneLine(d);
    SplitOneLine(d);
    ReadPrefixed("serial: ", d);
    SerialDirective(d);
    SerialRoundTrip(n);
  }

  /** What an id line reads as: the key id up to its first newline, and what follows. */
  function IdRead(keyID: string): seq<Directive> {
    [Id(Split(keyID)[0])] + Collect(Split(keyID)[1..])
  }

  lemma ReadId(keyID: string)
    ensures Read(KeyIDLine(keyID)) == IdRead(keyID)
  {
    ReadPrefixed("id: ", keyID);
    IdDirective(Split(keyID)[0]);
  }

  function SerialsRead(ss: seq<SerialEntry>): seq<Directive> {
    if ss == [] then []
    else SerialsRead(ss[..|ss| - 1]) + (Noise(ss[|ss| - 1].annot) + [Serial(Some(ss[|ss| - 1].serial))])
  }

  function IdsRead(ks: seq<KeyIDEntry>): seq<Directive> {
    if ks == [] then []
    else IdsRead(ks[..|ks| - 1]) + (Noise(ks[|ks| - 1].annot) + IdRead(ks[|ks| - 1].keyID))
  }

  lemma Regroup(front: string, comment: string, line: string, rest: string)
    ensures front + comment + line + "\n" + rest == front + (comment + (line + "\n" + rest))
  {
  }

  /** A comment and a line, in front of the rest. */
  lemma ReadEntry(annot: string, line: string, rest: string)
    ensures Read(Comment(annot) + (line + "\n" + rest)) == Noise(annot) + Read(line) + Read(rest)
  {
    ReadComment(annot, line + "\n" + rest);
    ReadLines(line, rest);
  }

  lemma {:induction false} ReadSerialText(ss: seq<SerialEntry>, rest: string)
    ensures Read(SerialText(ss) + rest) == SerialsRead(ss) + Read(rest)
    decreases |ss|
  {
    if ss == [] {
      assert SerialText(ss) + rest == rest;
    } else {
      var front, s := ss[..|ss| - 1], ss[|ss| - 1];
      var line := SerialLine(s.serial);
      Regroup(SerialText(front), Comment(s.annot), line, rest);
      ReadSerialText(front, Comment(s.annot) + (line + "\n" + rest));
      ReadEntry(s.annot, line, rest);
      ReadSerial(s.serial);
    }
  }

  lemma {:induction false} ReadKeyIDText(ks: seq<KeyIDEntry>, rest: string)
    ensures Read(KeyIDText(ks) + rest) == IdsRead(ks) + Read(rest)
    decreases |ks|
  {
    if ks == [] {
      assert KeyIDText(ks) + rest == rest;
    } else {
      var front, k := ks[..|ks| - 1], ks[|ks| - 1];
      var line := KeyIDLine(k.keyID);
      Regroup(KeyIDText(front), Comment(k.annot), line, rest);
      ReadKeyIDText(front, Comment(k.annot) + (line + "\n" + rest));
      ReadEntry(k.annot, line, rest);
      ReadId(k.keyID);
    }
  }

  lemma QuietComment(annot: string, rest: string)
    requires OneLine(annot)
    ensures Read(Comment(annot) + rest) == Read(rest)
  {
    ReadComment(annot, rest);
    SplitOneLine(annot);
  }

  lemma ReadHeader(stamp: string, body: string)
    requires OneLine(stamp)
    ensures Read(Comment(TITLE) + Comment("generated " + stamp) + body) == Read(body)
  {
    var title, dated := Comment(TITLE), Comment("generated " + stamp);
    assert title + dated + body == title + (dated + body);
    QuietComment(TITLE, dated + body);
    QuietComment("generated " + stamp, body);
  }

  /** The whole file reads as its entries, with whatever noise their texts let through. */
  lemma {:induction false} ReadRendered(stamp: string, ss: seq<SerialEntry>, ks: seq<KeyIDEntry>)
    requires OneLine(stamp)
    ensures Read(Render(stamp, ss, ks)) == SerialsRead(ss) + IdsRead(ks)
  {
    ReadHeader(stamp, if ss == [] && ks == [] then Comment(NOTHING) else SerialText(ss) + KeyIDText(ks));
    ReadBody(ss, ks);
  }

  lemma NothingIsQuiet()
    ensures Read(Comment(NOTHING)) == Read("") == []
  {
    QuietComment(NOTHING, "");
    assert Comment(NOTHING) + "" == Comment(NOTHING);
  }

  lemma {:induction false} ReadBody(ss: seq<SerialEntry>, ks: seq<KeyIDEntry>)
    ensures Read(if ss == [] && ks == [] then Comment(NOTHING) else SerialText(ss) + KeyIDText(ks))
            == SerialsRead(ss) + IdsRead(ks)
  {
    if ss == [] && ks == [] {
      NothingIsQuiet();
    } else {
      ReadSerialText(ss, KeyIDText(ks));
      ReadKeyIDText(ks, "");
      assert KeyIDText(ks) + "" == KeyIDText(ks);
      assert Read("") == [];
    }
  }

  // -------------------------------------------------------------------------------------
  // The exact condition
  // -------------------------------------------------------------------------------------

  /** No line after the first is a directive. */
  predicate Quiet(s: string) {
    forall i :: 1 <= i < |Split(s)| ==> DirectiveOf(Split(s)[i]) == None
  }

  function SerialDirectives(ss: seq<SerialEntry>): seq<Directive> {
    seq(|ss|, i requires 0 <= i < |ss| => Serial(Some(ss[i].serial)))
  }

  function IdDirectives(ks: seq<KeyIDEntry>): seq<Directive> {
    seq(|ks|, i requires 0 <= i < |ks| => Id(ks[i].keyID))
  }

  lemma {:induction false} QuietIsNoNoise(s: string)
    ensures Quiet(s) <==> Collect(Split(s)[1..]) == []
    ensures Noise(s) == [] <==> Quiet(s)
  {
    var tail := Split(s)[1..];
    FlatMapEmpty(Found, tail);
    assert forall i :: 1 <= i < |Split(s)| ==> Split(s)[i] == tail[i - 1];
  }

  /** Two sequences, the first no shorter, extended by at least one and by exactly one element. */
  lemma SnocEqual<T>(a: seq<T>, b: seq<T>, tail: seq<T>, last: T)
    requires |a| >= |b| && |tail| >= 1
    ensures a + tail == b + [last] <==> a == b && tail == [last]
  {
    if a + tail == b + [last] {
      assert |a| == |b| && |tail| == 1;
      assert (a + tail)[..|a|] == a && (b + [last])[..|a|] == b;
      assert (a + tail)[|a|] == tail[0];
    }
  }

  predicate QuietSerials(ss: seq<SerialEntry>) {
    forall i :: 0 <= i < |ss| ==> Noise(ss[i].annot) == []
  }

  predicate QuietIDs(ks: seq<KeyIDEntry>) {
    forall i :: 0 <= i < |ks| ==> Noise(ks[i].annot) == [] && OneLine(ks[i].keyID)
  }

  lemma SerialDirectivesSnoc(front: seq<SerialEntry>, s: SerialEntry)
    ensures SerialDirectives(front + [s]) == SerialDirectives(front) + [Serial(Some(s.serial))]
    ensures QuietSerials(front + [s]) <==> QuietSerials(front) && Noise(s.annot) == []
  {
    assert forall i :: 0 <= i < |front| ==> (front + [s])[i] == front[i];
    assert (front + [s])[|front|] == s;
  }

  lemma IdDirectivesSnoc(front: seq<KeyIDEntry>, k: KeyIDEntry)
    ensures IdDirectives(front + [k]) == IdDirectives(front) + [Id(k.keyID)]
    ensures QuietIDs(front + [k]) <==> QuietIDs(front) && Noise(k.annot) == [] && OneLine(k.keyID)
  {
    assert forall i :: 0 <= i < |front| ==> (front + [k])[i] == front[i];
    assert (front + [k])[|front|] == k;
  }

  lemma NoiseThen(noise: seq<Directive>, line: seq<Directive>, d: Directive)
    requires |line| >= 1
    ensures noise + line == [d] <==> noise == [] && line == [d]
  {
  }

  lemma {:induction false} SerialsReadExact(ss: seq<SerialEntry>)
    ensures |SerialsRead(ss)| >= |ss|
    ensures SerialsRead(ss) == SerialDirectives(ss) <==> QuietSerials(ss)
  {
    if ss != [] {
      var front, s := ss[..|ss| - 1], ss[|ss| - 1];
      var d := Serial(Some(s.serial));
      assert ss == front + [s];
      SerialsReadExact(front);
      SerialDirectivesSnoc(front, s);
      NoiseThen(Noise(s.annot), [d], d);
      SnocEqual(SerialsRead(front), SerialDirectives(front), Noise(s.annot) + [d], d);
    }
  }

  lemma IdReadExact(keyID: string)
    ensures IdRead(keyID) == [Id(keyID)] <==> OneLine(keyID)
    ensures |IdRead(keyID)| >= 1
  {
    SplitOneLine(keyID);
    if IdRead(keyID) == [Id(keyID)] {
      assert IdRead(keyID)[0] == Id(Split(keyID)[0]);
    }
  }

  lemma {:induction false} IdsReadExact(ks: seq<KeyIDEntry>)
    ensures |IdsRead(ks)| >= |ks|
    ensures IdsRead(ks) == IdDirectives(ks) <==> QuietIDs(ks)
  {
    if ks != [] {
      var front, k := ks[..|ks| - 1], ks[|ks| - 1];
      assert ks == front + [k];
      IdsReadExact(front);
      IdReadExact(k.keyID);
      IdDirectivesSnoc(front, k);
      NoiseThen(Noise(k.annot), IdRead(k.keyID), Id(k.keyID));
      SnocEqual(IdsRead(front), IdDirectives(front), Noise(k.annot) + IdRead(k.keyID), Id(k.keyID));
    }
  }

  lemma OneLineConcat(a: string, b: string)
    requires OneLine(a) && OneLine(b)
    ensures OneLine(a + b)
  {
  }

  /** The one-line text in front of a revoker. */
  function Lead(reason: string): string {
    (if reason != "" then "reason: " + Spaced(reason) + " | " else "") + "revoker: "
  }

  lemma LeadIsOneLine(reason: string)
    ensures OneLine(Lead(reason)) && OneLine("reason: " + Spaced(reason))
  {
    OneLineConcat("reason: ", Spaced(reason));
    OneLineConcat("reason: " + Spaced(reason), " | ");
  }

  lemma NoiseAfter(lead: string, revoker: string)
    requires OneLine(lead) && lead != ""
    ensures Noise(lead + revoker) == [] <==> Quiet(revoker)
  {
    SplitPrefix(lead, revoker);
    assert Split(lead + revoker)[1..] == Split(revoker)[1..];
    QuietIsNoNoise(revoker);
  }

  /** A reason is flattened to one line, so only the revoker's own newlines reach the file. */
  lemma AnnotationNoise(e: Revocation)
    ensures Noise(Annotation(e)) == [] <==> Quiet(e.revoker)
  {
    LeadIsOneLine(e.reason);
    if e.revoker == "" {
      SplitOneLine("");
      SplitOneLine(Annotation(e));
    } else {
      assert Annotation(e) == Lead(e.reason) + e.revoker;
      NoiseAfter(Lead(e.reason), e.revoker);
    }
  }

  lemma {:induction false} SerialEntryOrigin(es: seq<Revocation>, s: SerialEntry) returns (i: nat)
    requires s in SerialEntries(es)
    ensures i < |es| && es[i].serial != 0 && s == SerialEntry(es[i].serial, Annotation(es[i]))
  {
    var front := es[..|es| - 1];
    if s in SerialEntries(front) {
      i := SerialEntryOrigin(front, s);
    } else {
      i := |es| - 1;
    }
  }

  lemma {:induction false} SerialEntryListed(es: seq<Revocation>, i: nat)
    requires i < |es| && es[i].serial != 0
    ensures SerialEntry(es[i].serial, Annotation(es[i])) in SerialEntries(es)
  {
    if i < |es| - 1 {
      SerialEntryListed(es[..|es| - 1], i);
    }
  }

  lemma {:induction false} KeyIDEntryOrigin(es: seq<Revocation>, k: KeyIDEntry) returns (i: nat)
    requires k in KeyIDEntries(es)
    ensures i < |es| && es[i].keyID != "" && k == KeyIDEntry(es[i].keyID, Annotation(es[i]))
  {
    var front := es[..|es| - 1];
    if k in KeyIDEntries(front) {
      i := KeyIDEntryOrigin(front, k);
    } else {
      i := |es| - 1;
    }
  }

  lemma {:induction false} KeyIDEntryListed(es: seq<Revocation>, i: nat)
    requires i < |es| && es[i].keyID != ""
    ensures KeyIDEntry(es[i].keyID, Annotation(es[i])) in KeyIDEntries(es)
  {
    if i < |es| - 1 {
      KeyIDEntryListed(es[..|es| - 1], i);
    }
  }

  /** What a caller can check of the entries beforehand: key ids of one line, and revokers whose
      later lines, if any, are not directives. */
  predicate Clean(es: seq<Revocation>) {
    forall i :: 0 <= i < |es| ==> OneLine(es[i].keyID)
                                  && (es[i].serial != 0 || es[i].keyID != "" ==> Quiet(es[i].revoker))
  }

  lemma {:induction false} CleanSerials(es: seq<Revocation>, ss: seq<SerialEntry>)
    requires multiset(ss) == multiset(SerialEntries(es))
    ensures QuietSerials(ss) <==> forall i :: 0 <= i < |es| ==> es[i].serial != 0 ==> Quiet(es[i].revoker)
  {
    SamePermutationMembers(ss, SerialEntries(es));
    if QuietSerials(ss) {
      forall j | 0 <= j < |es| && es[j].serial != 0 ensures Quiet(es[j].revoker) {
        SerialEntryListed(es, j);
        AnnotationNoise(es[j]);
        var i :| 0 <= i < |ss| && ss[i] == SerialEntry(es[j].serial, Annotation(es[j]));
      }
    } else {
      var i :| 0 <= i < |ss| && Noise(ss[i].annot) != [];
      var j := SerialEntryOrigin(es, ss[i]);
      AnnotationNoise(es[j]);
    }
  }

  lemma {:induction false} CleanIDs(es: seq<Revocation>, ks: seq<KeyIDEntry>)
    requires multiset(ks) == multiset(KeyIDEntries(es))
    ensures QuietIDs(ks) <==> forall i :: 0 <= i < |es| ==> es[i].keyID != "" ==> OneLine(es[i].keyID) && Quiet(es[i].revoker)
  {
    SamePermutationMembers(ks, KeyIDEntries(es));
    if QuietIDs(ks) {
      forall j | 0 <= j < |es| && es[j].keyID != "" ensures OneLine(es[j].keyID) && Quiet(es[j].revoker) {
        KeyIDEntryListed(es, j);
        AnnotationNoise(es[j]);
        var i :| 0 <= i < |ks| && ks[i] == KeyIDEntry(es[j].keyID, Annotation(es[j]));
      }
    } else {
      var i :| 0 <= i < |ks| && !(Noise(ks[i].annot) == [] && OneLine(ks[i].keyID));
      var j := KeyIDEntryOrigin(es, ks[i]);
      AnnotationNoise(es[j]);
    }
  }

  /** Reading the directive lines back yields exactly the entries' serials, ascending, and then
      their key ids, ascending, whatever the reasons hold, if and only if the entries are clean. */
  lemma ReadBack(stamp: string, es: seq<Revocation>, ss: seq<SerialEntry>, ks: seq<KeyIDEntry>)
    requires OneLine(stamp) && Arranged(es, ss, ks)
    ensures Read(Render(stamp, ss, ks)) == SerialDirectives(ss) + IdDirectives(ks) <==> Clean(es)
  {
    ReadRendered(stamp, ss, ks);
    SerialsReadExact(ss);
    IdsReadExact(ks);
    CleanSerials(es, ss);
    CleanIDs(es, ks);
    var got, want := SerialsRead(ss) + IdsRead(ks), SerialDirectives(ss) + IdDirectives(ks);
    if got == want {
      assert |SerialsRead(ss)| == |ss|;
      assert got[|ss|..] == IdsRead(ks) && want[|ss|..] == IdDirectives(ks);
    }
  }

  lemma SpecOrders()
    ensures StrictWeak(SerialLess) && StrictWeak(KeyIDLess)
  {
    forall x: SerialEntry, y: SerialEntry, z: SerialEntry
      ensures Asymmetric(SerialLess, x, y) && Cotransitive(SerialLess, x, y, z)
    {
    }
    LessIsOrder([]);
    forall x: KeyIDEntry, y: KeyIDEntry ensures Asymmetric(KeyIDLess, x, y) {
      assert Asymmetric(Less, x.keyID, y.keyID);
    }
    forall x: KeyIDEntry, y: KeyIDEntry, z: KeyIDEntry ensures Cotransitive(KeyIDLess, x, y, z) {
      assert Cotransitive(Less, x.keyID, y.keyID, z.keyID);
    }
  }

  /** What the marshaller writes is one of the arrangements read back above. */
  lemma {:induction false} MarshalArranges(es: seq<Revocation>)
    ensures Arranged(es, Sort(SerialLess, SerialEntries(es)), Sort(KeyIDLess, KeyIDEntries(es)))
  {
    SpecOrders();
    SortSound(SerialLess, SerialEntries(es));
    SortSound(KeyIDLess, KeyIDEntries(es));
  }

  lemma InConcat<T>(x: T, a: seq<T>, b: seq<T>)
    ensures x in a + b <==> x in a || x in b
  {
    assert forall i :: 0 <= i < |a| ==> (a + b)[i] == a[i];
    assert forall i :: 0 <= i < |b| ==> (a + b)[|a| + i] == b[i];
  }

  // -------------------------------------------------------------------------------------
  // Entries that are not clean
  // -------------------------------------------------------------------------------------

  /** A line after a newline is read as a line of its own. */
  lemma {:induction false} LaterLineRead(name: string, line: string)
    ensures Collect(Split(name + "\n" + line)[1..]) == Collect(Split(name)[1..]) + Read(line)
  {
    SplitAt(name, line);
    assert (Split(name) + Split(line))[1..] == Split(name)[1..] + Split(line);
    FlatMapConcat(Found, Split(name)[1..], Split(line));
  }

  /** One revocation by key id alone: its snapshot, and that it revokes no serial. */
  lemma {:induction false} KeyIDAlone(r: Revocation, n: uint64)
    requires r.serial == 0 && r.keyID != "" && n != 0
    ensures IsSnapshot([r], [r]) && Arranged([r], [], [KeyIDEntry(r.keyID, Annotation(r))])
    ensures !Lookup(BySerial([r]), ByKeyID([r]), n, "")
  {
    IndexEntries([r]);
    assert [r][..0] == [] && BySerial([]) == map[] && ByKeyID([]) == map[];
    assert BySerial([r]) == map[] && ByKeyID([r]) == map[r.keyID := r];
    assert SerialEntries([]) == [] && KeyIDEntries([]) == [];
    assert SerialEntries([r]) == [] + [];
    assert KeyIDEntries([r]) == [] + [KeyIDEntry(r.keyID, Annotation(r))];
  }

  lemma {:induction false} OneIdRead(stamp: string, k: KeyIDEntry)
    requires OneLine(stamp)
    ensures Read(Render(stamp, [], [k])) == Noise(k.annot) + IdRead(k.keyID)
  {
    ReadRendered(stamp, [], [k]);
    assert [k][..0] == [] && IdsRead([k]) == [] + (Noise(k.annot) + IdRead(k.keyID));
  }

  /** A key id of two lines, the second a serial directive: the file of this one revocation names
      a serial that the store does not call revoked. */
  lemma {:induction false} KeyIDPlants(name: string, n: uint64, reason: string, revoker: string, revoked: int, stamp: string)
    requires n != 0 && OneLine(stamp)
    ensures
      var r := Revocation(0, name + "\n" + SerialLine(n), reason, revoker, revoked);
      var ks := [KeyIDEntry(r.keyID, Annotation(r))];
      && IsSnapshot([r], [r]) && Arranged([r], [], ks)
      && Serial(Some(n)) in Read(Render(stamp, [], ks)) && !Lookup(BySerial([r]), ByKeyID([r]), n, "")
  {
    var r := Revocation(0, name + "\n" + SerialLine(n), reason, revoker, revoked);
    var k := KeyIDEntry(r.keyID, Annotation(r));
    KeyIDAlone(r, n);
    OneIdRead(stamp, k);
    LaterLineRead(name, SerialLine(n));
    ReadSerial(n);
    LastIn(Noise(k.annot) + ([Id(Split(r.keyID)[0])] + Collect(Split(name)[1..])), Serial(Some(n)));
    assert Noise(k.annot) + IdRead(r.keyID)
        == Noise(k.annot) + ([Id(Split(r.keyID)[0])] + Collect(Split(name)[1..])) + [Serial(Some(n))];
  }

  lemma LastIn<T>(s: seq<T>, x: T)
    ensures x in s + [x]
  {
    assert (s + [x])[|s|] == x;
  }

  lemma {:induction false} RevokerNoise(r: Revocation)
    requires r.revoker != ""
    ensures Noise(Annotation(r)) == Collect(Split(r.revoker)[1..])
  {
    LeadIsOneLine(r.reason);
    assert Annotation(r) == Lead(r.reason) + r.revoker;
    SplitPrefix(Lead(r.reason), r.revoker);
    assert Split(Lead(r.reason) + r.revoker)[1..] == Split(r.revoker)[1..];
  }

  /** The same through a revoker of two lines, whatever the key id. */
  lemma {:induction false} RevokerPlants(name: string, n: uint64, keyID: string, reason: string, revoked: int, stamp: string)
    requires n != 0 && keyID != "" && OneLine(stamp)
    ensures
      var r := Revocation(0, keyID, reason, name + "\n" + SerialLine(n), revoked);
      var ks := [KeyIDEntry(r.keyID, Annotation(r))];
      && IsSnapshot([r], [r]) && Arranged([r], [], ks)
      && Serial(Some(n)) in Read(Render(stamp, [], ks)) && !Lookup(BySerial([r]), ByKeyID([r]), n, "")
  {
    var r := Revocation(0, keyID, reason, name + "\n" + SerialLine(n), revoked);
    KeyIDAlone(r, n);
    OneIdRead(stamp, KeyIDEntry(keyID, Annotation(r)));
    RevokerNoise(r);
    LaterLineRead(name, SerialLine(n));
    ReadSerial(n);
    LastIn(Collect(Split(name)[1..]), Serial(Some(n)));
    InConcat(Serial(Some(n)), Noise(Annotation(r)), IdRead(keyID));
  }
}
