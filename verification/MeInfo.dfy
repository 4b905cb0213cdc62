/** The client's me.info file: one line of name, one of id, then the key. */
module MeInfo {
  import opened Wrappers

  const MAX_NAME_SIZE := 255
  const ID_SIZE := 32
  const NUM_PARAMS := 3

  // ----- splitting and joining -----

  predicate FoundAt(text: string, delimiter: string, i: nat)
  {
    i + |delimiter| <= |text| && text[i..i + |delimiter|] == delimiter
  }

  /** `std::string::find` from position i. */
  function FindFrom(text: string, delimiter: string, i: nat): (at: Option<nat>)
    ensures at.Some? ==> i <= at.value && FoundAt(text, delimiter, at.value)
    ensures at.Some? ==> forall k: nat :: i <= k < at.value ==> !FoundAt(text, delimiter, k)
    ensures at.None? ==> forall k: nat :: i <= k ==> !FoundAt(text, delimiter, k)
    decreases |text| - i
  {
    if i + |delimiter| > |text| then None
    else if FoundAt(text, delimiter, i) then Some(i)
    else FindFrom(text, delimiter, i + 1)
  }

  function Find(text: string, delimiter: string): Option<nat>
  {
    FindFrom(text, delimiter, 0)
  }

  /** The pieces `split` pushes. It steps over one character after a match,
      whatever the delimiter's length. */
  function Split(text: string, delimiter: string): (pieces: seq<string>)
    requires delimiter != ""
    ensures pieces != []
    decreases |text|
  {
    match Find(text, delimiter)
    case None => [text]
    case Some(end) => [text[..end]] + Split(text[end + 1..], delimiter)
  }

  function Join(pieces: seq<string>, delimiter: string): (text: string)
    decreases |pieces|
  {
    if pieces == [] then ""
    else pieces[0] + delimiter + Join(pieces[1..], delimiter)
  }

  /** `split` shrinks the text it was given by reference to its last piece. */
  method SplitText(text: string, delimiter: string) returns (pieces: seq<string>, rest: string)
    requires delimiter != ""
    ensures pieces == Split(text, delimiter)
    ensures rest == pieces[|pieces| - 1]
  {
    pieces, rest := [], text;
    var end := Find(rest, delimiter);
    while end.Some?
      invariant end == Find(rest, delimiter)
      invariant pieces + Split(rest, delimiter) == Split(text, delimiter)
      decreases |rest|, end.Some?
    {
      ghost var before, shorter := pieces, rest[end.value + 1..];
      pieces := pieces + [rest[..end.value]];
      assert Split(rest, delimiter) == [rest[..end.value]] + Split(shorter, delimiter);
      assert before + Split(rest, delimiter) == pieces + Split(shorter, delimiter);
      rest := rest[end.value + 1..];
      end := Find(rest, delimiter);
    }
    pieces := pieces + [rest];
  }

  method JoinPieces(pieces: seq<string>, delimiter: string) returns (text: string)
    ensures text == Join(pieces, delimiter)
  {
    text := "";
    var i := 0;
    while i < |pieces|
      invariant 0 <= i <= |pieces|
      invariant text + Join(pieces[i..], delimiter) == Join(pieces, delimiter)
    {
      assert pieces[i..][0] == pieces[i] && pieces[i..][1..] == pieces[i + 1..];
      assert text + (pieces[i] + delimiter + Join(pieces[i + 1..], delimiter))
          == text + (pieces[i] + delimiter) + Join(pieces[i + 1..], delimiter);
      text := text + (pieces[i] + delimiter);
      i := i + 1;
    }
  }

  /** Splitting and joining gives the text back, with one delimiter after it,
      exactly when the delimiter is one character or does not occur. */
  lemma {:induction false} RejoinsIff(text: string, delimiter: string)
    requires delimiter != ""
    ensures |Join(Split(text, delimiter), delimiter)| >= |text| + |delimiter|
    ensures Join(Split(text, delimiter), delimiter) == text + delimiter
            <==> |delimiter| == 1 || Find(text, delimiter).None?
    decreases |text|
  {
    match Find(text, delimiter) {
      case None =>
        assert Join([text], delimiter) == text + delimiter + Join([text][1..], delimiter);
      case Some(end) =>
        var rest := text[end + 1..];
        RejoinsIff(rest, delimiter);
        JoinCons(text[..end], Split(rest, delimiter), delimiter);
        RejoinsHere(text, delimiter, end, Join(Split(rest, delimiter), delimiter));
    }
  }

  /** One piece and the delimiter in front of a rejoined rest. */
  lemma RejoinsHere(text: string, delimiter: string, end: nat, rest: string)
    requires delimiter != "" && FoundAt(text, delimiter, end)
    requires |rest| >= |text| - end - 1 + |delimiter|
    requires |delimiter| == 1 ==> rest == text[end + 1..] + delimiter
    ensures |text[..end] + delimiter + rest| >= |text| + |delimiter|
    ensures text[..end] + delimiter + rest == text + delimiter <==> |delimiter| == 1
  {
    if |delimiter| == 1 {
      assert text == text[..end] + delimiter + text[end + 1..];
    }
  }

  /** With a one-character delimiter no piece contains it, and there is one piece
      more than there are delimiters. */
  lemma {:induction false} PiecesAreFree(text: string, c: char)
    ensures forall i :: 0 <= i < |Split(text, [c])| ==> c !in Split(text, [c])[i]
    ensures |Split(text, [c])| == multiset(text)[c] + 1
    decreases |text|
  {
    match Find(text, [c]) {
      case None =>
        NotFoundMeansAbsent(text, c, |text|);
        assert text[..|text|] == text;
      case Some(end) =>
        var rest := text[end + 1..];
        PiecesAreFree(rest, c);
        NotFoundMeansAbsent(text, c, end);
        assert text == text[..end] + [c] + rest;
    }
  }

  lemma NotFoundMeansAbsent(text: string, c: char, n: nat)
    requires n <= |text| && forall k: nat :: k < n ==> !FoundAt(text, [c], k)
    ensures c !in text[..n]
  {
    forall k | 0 <= k < n
      ensures text[k] != c
    {
      assert !FoundAt(text, [c], k);
      assert text[k..k + 1] == [text[k]];
    }
  }

  // ----- the file's fields -----

  datatype Info = Info(name: string, id: string, privateKey: string)

  predicate IsHexDigit(c: char)
  {
    '0' <= c <= '9' || 'A' <= c <= 'F' || 'a' <= c <= 'f'
  }

  predicate IsHex(s: string)
  {
    forall i :: 0 <= i < |s| ==> IsHexDigit(s[i])
  }

  method StringIsHex(input: string) returns (hex: bool)
    ensures hex <==> IsHex(input)
  {
    var hexDigits := "0123456789ABCDEFabcdef";
    var i := 0;
    while i < |input|
      invariant 0 <= i <= |input|
      invariant forall k :: 0 <= k < i ==> IsHexDigit(input[k])
    {
      HexDigitsAre(input[i]);
      if input[i] !in hexDigits {
        return false;
      }
      i := i + 1;
    }
    hex := true;
  }

  lemma HexDigitsAre(c: char)
    ensures c in "0123456789ABCDEFabcdef" <==> IsHexDigit(c)
  {
    var digits := "0123456789ABCDEFabcdef";
    if '0' <= c <= '9' {
      assert digits[c as int - 48] == c;
    } else if 'A' <= c <= 'F' {
      assert digits[c as int - 55] == c;
    } else if 'a' <= c <= 'f' {
      assert digits[c as int - 81] == c;
    }
  }

  /** `name.resize(255)` */
  function Resize(name: string): (padded: string)
    requires |name| <= MAX_NAME_SIZE
    ensures |padded| == MAX_NAME_SIZE && padded[..|name|] == name
    ensures forall i :: |name| <= i < MAX_NAME_SIZE ==> padded[i] == '\0'
  {
    name + seq(MAX_NAME_SIZE - |name|, i => '\0')
  }

  /** Reading the fields from the file's text: whether it succeeded, and the
      fields afterwards. A bad id leaves the new name in place. */
  function Parse(info: Info, text: string): (parsed: (bool, Info))
  {
    ParseParams(info, Split(text, "\n"))
  }

  function ParseParams(info: Info, params: seq<string>): (parsed: (bool, Info))
  {
    if |params| < NUM_PARAMS || |params[0]| > MAX_NAME_SIZE then (false, info)
    else
      var named := info.(name := Resize(params[0]));
      if !IsHex(params[1]) || |params[1]| != ID_SIZE then (false, named)
      else (true, named.(id := params[1], privateKey := Join(params[2..|params| - 1], "\n")))
  }

  function Render(info: Info): string
  {
    info.name + "\n" + info.id + "\n" + info.privateKey
  }

  /** `disk` is the file's content, `junk` what a text-mode read leaves in the
      buffer after it. */
  class MeInfoFile {
    var name: string
    var id: string
    var privateKey: string
    var readenData: string
    var parsed: bool
    var disk: Option<string>
    const junk: string

    function Fields(): Info
      reads this
    {
      Info(name, id, privateKey)
    }

    /** The file is read on construction. */
    constructor (disk: Option<string>, junk: string)
      ensures this.disk == disk && this.junk == junk
      ensures disk.None? ==> parsed && Fields() == Info("", "", "")
      ensures disk.Some? ==> (parsed, Fields()) == Parse(Info("", "", ""), disk.value + junk)
    {
      this.disk, this.junk := disk, junk;
      name, id, privateKey, readenData, parsed := "", "", "", "", false;
      new;
      var ok := ParseData();
    }

    method SetID(newId: string) returns (ok: bool)
      modifies this`id
      ensures ok <==> IsHex(newId) && |newId| == ID_SIZE
      ensures id == if ok then newId else old(id)
    {
      var hex := StringIsHex(newId);
      if !hex || |newId| != ID_SIZE {
        return false;
      }
      id := newId;
      ok := true;
    }

    method SetName(newName: string) returns (ok: bool)
      modifies this`name
      ensures ok <==> |newName| <= MAX_NAME_SIZE
      ensures name == if ok then Resize(newName) else old(name)
    {
      if |newName| > MAX_NAME_SIZE {
        return false;
      }
      name := Resize(newName);
      ok := true;
    }

    method SetPrivateKey(key: string)
      modifies this`privateKey
      ensures privateKey == key
    {
      privateKey := key;
    }

    method TakeParams(params: seq<string>) returns (ok: bool)
      modifies this`name, this`id, this`privateKey
      ensures (ok, Fields()) == ParseParams(old(Fields()), params)
    {
      if NUM_PARAMS > |params| {
        return false;
      }
      ok := SetName(params[0]);
      if !ok {
        return;
      }
      ok := SetID(params[1]);
      if !ok {
        return;
      }
      var key := JoinPieces(params[2..|params| - 1], "\n");
      SetPrivateKey(key);
    }

    /** A missing file counts as parsed and changes no field. The buffer ends up
        holding only the last piece. */
    method ParseData() returns (ok: bool)
      modifies this`name, this`id, this`privateKey, this`readenData, this`parsed
      ensures disk.None? ==> ok && Fields() == old(Fields()) && readenData == old(readenData)
      ensures disk.Some? ==> (ok, Fields()) == Parse(old(Fields()), disk.value + junk)
      ensures disk.Some? ==> var pieces := Split(disk.value + junk, "\n"); readenData == pieces[|pieces| - 1]
      ensures parsed == (ok || old(parsed))
    {
      if disk.Some? {
        readenData := disk.value + junk;
        var params, rest := SplitText(readenData, "\n");
        readenData := rest;
        ok := TakeParams(params);
        if !ok {
          return;
        }
      }
      parsed := true;
      ok := true;
    }

    method WriteData(writable: bool) returns (ok: bool)
      modifies this`name, this`id, this`privateKey, this`readenData, this`parsed, this`disk
      ensures !writable ==> !ok && Fields() == old(Fields()) && disk == old(disk)
      ensures writable ==> disk == Some(Render(old(Fields())))
      ensures writable ==> (ok, Fields()) == Parse(old(Fields()), Render(old(Fields())) + junk)
    {
      readenData := name + "\n" + id + "\n" + privateKey;
      if !writable {
        return false;
      }
      disk := Some(readenData);
      ok := ParseData();
    }
  }

  // ----- round trip -----

  predicate EndsLine(s: string)
  {
    s == "" || s[|s| - 1] == '\n'
  }

  /** The first piece of a text whose first line is known. */
  lemma SplitFirstLine(line: string, rest: string)
    requires '\n' !in line
    ensures Split(line + "\n" + rest, "\n") == [line] + Split(rest, "\n")
  {
    var text := line + "\n" + rest;
    assert FoundAt(text, "\n", |line|);
    forall k: nat | k < |line|
      ensures !FoundAt(text, "\n", k)
    {
      assert text[k..k + 1] == [line[k]];
      assert line[k] in line;
    }
    assert Find(text, "\n") == Some(|line|);
    assert text[..|line|] == line && text[|line| + 1..] == rest;
  }

  lemma JoinCons(piece: string, pieces: seq<string>, delimiter: string)
    ensures Join([piece] + pieces, delimiter) == piece + delimiter + Join(pieces, delimiter)
  {
    assert ([piece] + pieces)[1..] == pieces;
  }

  /** All pieces but the last, rejoined. */
  function Head(text: string): string
  {
    var pieces := Split(text, "\n");
    Join(pieces[..|pieces| - 1], "\n")
  }

  function Last(text: string): string
  {
    var pieces := Split(text, "\n");
    pieces[|pieces| - 1]
  }

  lemma HeadStep(text: string, end: nat)
    requires Find(text, "\n") == Some(end)
    ensures Head(text) == text[..end] + "\n" + Head(text[end + 1..])
    ensures Last(text) == Last(text[end + 1..])
  {
    var pieces, tail := Split(text, "\n"), Split(text[end + 1..], "\n");
    assert pieces == [text[..end]] + tail;
    assert pieces[..|pieces| - 1] == [text[..end]] + tail[..|tail| - 1];
    JoinCons(text[..end], tail[..|tail| - 1], "\n");
  }

  lemma HeadOfLine(text: string)
    requires Find(text, "\n").None?
    ensures Head(text) == "" && Last(text) == text && '\n' !in text
  {
    assert [text][..0] == [];
    NotFoundMeansAbsent(text, '\n', |text|);
    assert text[..|text|] == text;
  }

  lemma Reassemble(line: string, head: string, last: string)
    requires EndsLine(head)
    ensures line + "\n" + head + last == line + "\n" + (head + last)
    ensures EndsLine(line + "\n" + head)
  {
  }

  lemma CutAt(text: string, at: nat)
    requires FoundAt(text, "\n", at)
    ensures text == text[..at] + "\n" + text[at + 1..]
  {
  }

  /** They are the text up to its last newline. */
  lemma {:induction false} AllButLast(text: string)
    ensures Head(text) + Last(text) == text
    ensures EndsLine(Head(text)) && '\n' !in Last(text)
    decreases |text|
  {
    var at := Find(text, "\n");
    if at.None? {
      HeadOfLine(text);
    } else {
      var line, rest := text[..at.value], text[at.value + 1..];
      AllButLast(rest);
      HeadStep(text, at.value);
      CutAt(text, at.value);
      Reassemble(line, Head(rest), Last(rest));
    }
  }

  lemma NoNewlineAfter(a: string, x: string)
    requires '\n' !in x
    ensures forall i :: |a| <= i < |a + x| ==> (a + x)[i] != '\n'
  {
    forall i | |a| <= i < |a + x|
      ensures (a + x)[i] != '\n'
    {
      assert (a + x)[i] == x[i - |a|];
    }
  }

  lemma SplitAtLastNewline(a: string, x: string, b: string, y: string)
    requires a + x == b + y && EndsLine(a) && EndsLine(b) && '\n' !in x && '\n' !in y
    ensures a == b && x == y
  {
    NoNewlineAfter(a, x);
    NoNewlineAfter(b, y);
    assert a != "" ==> (a + x)[|a| - 1] == '\n';
    assert b != "" ==> (b + y)[|b| - 1] == '\n';
    assert |a| == |b|;
    assert a == (a + x)[..|a|] && b == (b + y)[..|b|];
    assert x == (a + x)[|a|..] && y == (b + y)[|b|..];
  }

  lemma RenderIs(info: Info, junk: string)
    ensures Render(info) + junk == info.name + "\n" + (info.id + "\n" + (info.privateKey + junk))
  {
  }

  lemma SplitOfFile(info: Info, junk: string)
    requires '\n' !in info.name && IsHex(info.id)
    ensures Split(Render(info) + junk, "\n") == [info.name, info.id] + Split(info.privateKey + junk, "\n")
  {
    var keyed := info.privateKey + junk;
    RenderIs(info, junk);
    assert '\n' !in info.id by {
      assert !IsHexDigit('\n');
    }
    SplitFirstLine(info.name, info.id + "\n" + keyed);
    SplitFirstLine(info.id, keyed);
  }

  lemma ThreeLinesText(name: string, id: string, rest: string)
    ensures name + "\n" + id + "\n" + rest == name + "\n" + (id + "\n" + rest)
  {
  }

  lemma SplitThreeLines(name: string, id: string, rest: string)
    requires '\n' !in name && '\n' !in id
    ensures Split(name + "\n" + id + "\n" + rest, "\n") == [name] + ([id] + Split(rest, "\n"))
  {
    SplitFirstLine(id, rest);
    SplitFirstLine(name, id + "\n" + rest);
    ThreeLinesText(name, id, rest);
  }

  /** What a file of at least three lines gives: which names and ids are taken, and
      the key up to the last newline. */
  lemma ThreeLines(before: Info, name: string, id: string, rest: string)
    requires '\n' !in name && '\n' !in id
    ensures Parse(before, name + "\n" + id + "\n" + rest)
            == if |name| > 255 then (false, before)
               else if !IsHex(id) || |id| != 32 then (false, before.(name := Resize(name)))
               else (true, Info(Resize(name), id, Head(rest)))
  {
    SplitThreeLines(name, id, rest);
    ThreePieces(before, name, id, rest, Split(rest, "\n"));
  }

  lemma ThreePieces(before: Info, name: string, id: string, rest: string, tail: seq<string>)
    requires tail == Split(rest, "\n")
    ensures ParseParams(before, [name] + ([id] + tail))
            == if |name| > 255 then (false, before)
               else if !IsHex(id) || |id| != 32 then (false, before.(name := Resize(name)))
               else (true, Info(Resize(name), id, Head(rest)))
  {
    var params := [name] + ([id] + tail);
    assert params[2..|params| - 1] == tail[..|tail| - 1];
  }

  /** A file of one or two lines fails and changes nothing. */
  lemma FewLines(before: Info, first: string, second: string)
    requires '\n' !in first && '\n' !in second
    ensures Parse(before, first) == (false, before)
    ensures Parse(before, first + "\n" + second) == (false, before)
  {
    OneLine(first);
    OneLine(second);
    SplitFirstLine(first, second);
  }

  lemma OneLine(line: string)
    requires '\n' !in line
    ensures Split(line, "\n") == [line]
  {
    forall k: nat | k < |line|
      ensures !FoundAt(line, "\n", k)
    {
      assert line[k..k + 1] == [line[k]];
      assert line[k] in line;
    }
  }

  /** A name with a newline comes back cut off. */
  lemma NameWithNewline(info: Info, before: Info, junk: string)
    requires |info.name| <= MAX_NAME_SIZE && '\n' in info.name
    ensures Parse(before, Render(info) + junk).1.name != Resize(info.name) || !Parse(before, Render(info) + junk).0
  {
    var text := Render(info) + junk;
    var k :| 0 <= k < |info.name| && info.name[k] == '\n';
    assert text[k..k + 1] == "\n";
    assert FoundAt(text, "\n", k);
    var end := Find(text, "\n").value;
    assert text[end..end + 1] == "\n";
    assert info.name[end] == text[end] == '\n';
    assert Split(text, "\n")[0] == text[..end];
    assert Resize(text[..end])[end] == '\0';
    assert Resize(info.name)[end] == '\n';
  }

  /** What is read back when the name has no newline: the key is cut after its
      last newline. */
  lemma ParsedFile(info: Info, before: Info, junk: string)
    requires |info.name| <= MAX_NAME_SIZE && IsHex(info.id) && |info.id| == ID_SIZE && '\n' !in info.name
    ensures Parse(before, Render(info) + junk)
            == (true, Info(Resize(info.name), info.id, Head(info.privateKey + junk)))
  {
    SplitOfFile(info, junk);
    var tail := Split(info.privateKey + junk, "\n");
    var params := [info.name, info.id] + tail;
    assert params[2..|params| - 1] == tail[..|tail| - 1];
  }

  /** Writing the file and reading it back returns the fields, the name padded to
      its 255 characters, exactly when the name has no newline and the key is
      empty or ends with one, whatever newline-free bytes follow. */
  lemma FileRoundTrip(info: Info, before: Info, junk: string)
    requires |info.name| <= MAX_NAME_SIZE && IsHex(info.id) && |info.id| == ID_SIZE
    requires '\n' !in junk
    ensures Parse(before, Render(info) + junk) == (true, info.(name := Resize(info.name)))
            <==> '\n' !in info.name && EndsLine(info.privateKey)
  {
    if '\n' in info.name {
      NameWithNewline(info, before, junk);
    } else {
      ParsedFile(info, before, junk);
      var keyed := info.privateKey + junk;
      AllButLast(keyed);
      if EndsLine(info.privateKey) {
        SplitAtLastNewline(Head(keyed), Last(keyed), info.privateKey, junk);
      }
    }
  }
}
