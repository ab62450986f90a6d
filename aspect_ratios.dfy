/** The aspect-ratio table of the picker (`AspectRatioScript`): two parallel
    lists, the ratios and their button labels, that start from four built-in
    entries and are extended from a `aspect_ratios.txt` file each time the
    buttons are built. A line of that file is `label,ratio`, optionally followed
    by `#comment`; a line whose first character is `#` is a comment. */
module AspectRatios {
  import opened Wrappers
  import opened Text

  // ---------------------------------------------------------------------------
  // One line of the file

  /** Why a line stops the read: Python raises `ValueError` when unpacking a
      split that does not have exactly two fields, and when `float` rejects the
      ratio text. */
  datatype LineError = FieldCount(found: nat) | NotANumber(text: string)

  datatype Parsed = Comment | Entry(name: string, ratio: real) | Malformed(why: LineError)

  /** One iteration of the reading loop, on its own: a line starting with `#`
      is skipped; any other line is stripped and split on `,` into a label and
      a ratio field, the ratio field is cut at its first `#`, and the rest must
      be a number. */
  function ParseLine(line: string): (p: Parsed)
    ensures p == Comment <==> StartsWith(line, '#')
    ensures p.Entry? ==> ',' !in p.name
  {
    if StartsWith(line, '#') then Comment else ParseFields(Split(Strip(line), ','))
  }

  /** The unpacking `label, ratio = ...` and the conversion of the ratio. */
  function ParseFields(fields: seq<string>): (p: Parsed)
    ensures p != Comment
    ensures p == Malformed(FieldCount(|fields|)) <==> |fields| != 2
    ensures p.Entry? ==> |fields| == 2 && p.name == fields[0] && ParseDecimal(BeforeHash(fields[1])) == Some(p.ratio)
  {
    if |fields| != 2 then Malformed(FieldCount(|fields|))
    else
      var text := BeforeHash(fields[1]);
      match ParseDecimal(text)
      case None => Malformed(NotANumber(text))
      case Some(v) => Entry(fields[0], v)
  }

  /** A line that is not a comment is read from its fields. */
  lemma ParseLineFields(line: string)
    requires !StartsWith(line, '#')
    ensures ParseLine(line) == ParseFields(Split(Strip(line), ','))
  {
  }

  /** Line `i` of a file, parsed: a comment, or what its fields give. */
  lemma ParsedAt(lines: seq<string>, i: nat)
    requires i < |lines|
    ensures StartsWith(lines[i], '#') ==> ParseAll(lines)[i] == Comment
    ensures !StartsWith(lines[i], '#') ==> ParseAll(lines)[i] == ParseFields(Split(Strip(lines[i]), ','))
  {
  }

  /** Two fields: the ratio field, cut at `#`, decides between an entry and a
      rejected number. */
  lemma ParseFieldsPair(fields: seq<string>)
    requires |fields| == 2
    ensures ParseDecimal(BeforeHash(fields[1])).None? ==>
              ParseFields(fields) == Malformed(NotANumber(BeforeHash(fields[1])))
    ensures ParseDecimal(BeforeHash(fields[1])).Some? ==>
              ParseFields(fields) == Entry(fields[0], ParseDecimal(BeforeHash(fields[1])).value)
  {
  }

  /** A line that is not a comment fails on its field count exactly when it
      does not hold exactly one comma. */
  lemma ParseLineFieldCount(line: string)
    requires !StartsWith(line, '#')
    ensures ParseLine(line) == Malformed(FieldCount(Count(line, ',') + 1)) <==> Count(line, ',') != 1
  {
    var fields := Split(Strip(line), ',');
    assert |fields| == Count(line, ',') + 1 by {
      SplitCount(Strip(line), ',');
      StripKeepsCount(line, ',');
    }
    ParseLineFields(line);
  }

  /** A line written as `label,ratio` followed by whitespace (the newline that
      `readlines` keeps) is read back as that label and that number, or is
      rejected for that ratio text if it is not a number. */
  lemma ParseLineWellFormed(name: string, text: string, eol: string)
    requires name != [] && !IsSpace(name[0]) && name[0] != '#' && ',' !in name
    requires text != [] && !IsSpace(text[|text| - 1]) && ',' !in text && '#' !in text
    requires AllSpace(eol)
    ensures ParseLine(name + "," + text + eol) ==
              match ParseDecimal(text)
              case Some(v) => Entry(name, v)
              case None => Malformed(NotANumber(text))
  {
    var core := name + "," + text;
    var line := core + eol;
    assert line == name + "," + text + eol && line[0] == name[0];
    assert Strip(line) == core by {
      assert core[0] == name[0] && core[|core| - 1] == text[|text| - 1];
      assert [] + core + eol == line;
      StripPadding([], core, eol);
      StripTrimmed(core);
    }
    assert Split(core, ',') == [name, text] by {
      assert core == name + [','] + text;
      SplitAround(name, text, ',');
    }
    ParseLineFields(line);
    ParseFieldsPair([name, text]);
    assert BeforeHash(text) == text;
  }

  /** What follows a `#` on a line does not matter, as long as it holds no
      comma (a comma there would still count as a field separator). */
  lemma ParseLineIgnoresComment(pre: string, c1: string, c2: string)
    requires ',' !in c1 && ',' !in c2
    ensures ParseLine(pre + "#" + c1) == ParseLine(pre + "#" + c2)
  {
    ParseLineCommentSuffix(pre, c1);
    ParseLineCommentSuffix(pre, c2);
  }

  lemma ParseLineCommentSuffix(pre: string, c: string)
    requires ',' !in c
    ensures ParseLine(pre + "#" + c) == ParseLine(pre + "#")
  {
    var line, bare := pre + "#" + c, pre + "#";
    assert pre == [] ==> line[0] == bare[0] == '#';
    assert pre != [] ==> line[0] == bare[0] == pre[0];
    StripAround(pre, '#', c);
    StripAround(pre, '#', []);
    assert bare == pre + "#" + [];
    var l, r := LStrip(pre), RStrip(c);
    assert r <= c;
    FieldsIgnoreComment(l, r);
    assert l + "#" + [] == l + "#";
  }

  /** The fields of a stripped line, with or without the text after a `#`. */
  lemma FieldsIgnoreComment(l: string, r: string)
    requires ',' !in r
    ensures ParseFields(Split(l + "#" + r, ',')) == ParseFields(Split(l + "#", ','))
  {
    var q := Split(l, ',');
    FieldsWithHashTail(l, r);
    FieldsWithHashTail(l, []);
    assert l + "#" + [] == l + "#";
    var f1, f2 := Split(l + "#" + r, ','), Split(l + "#", ',');
    if |q| == 2 {
      BeforeHashIgnoresComment(q[1], r);
      BeforeHashIgnoresComment(q[1], []);
    }
    ParseFieldsCongruent(f1, f2);
  }

  /** Text after the last comma only lengthens the last field. */
  lemma FieldsWithHashTail(l: string, r: string)
    requires ',' !in r
    ensures var q, f := Split(l, ','), Split(l + "#" + r, ',');
            |f| == |q| && f[..|q| - 1] == q[..|q| - 1] && f[|q| - 1] == q[|q| - 1] + "#" + r
  {
    var q, t := Split(l, ','), "#" + r;
    assert Split(l + "#" + r, ',') == ExtendLast(q, t) by {
      assert l + "#" + r == l + t;
      SplitAppend(l, t, ',');
    }
    var e := ExtendLast(q, t);
    assert |e| == |q| && e[..|q| - 1] == q[..|q| - 1] && e[|q| - 1] == q[|q| - 1] + t;
    assert q[|q| - 1] + t == q[|q| - 1] + "#" + r;
  }

  /** Only the field count, the label and the ratio text before `#` matter. */
  lemma ParseFieldsCongruent(f1: seq<string>, f2: seq<string>)
    requires |f1| == |f2|
    requires |f1| == 2 ==> f1[0] == f2[0] && BeforeHash(f1[1]) == BeforeHash(f2[1])
    ensures ParseFields(f1) == ParseFields(f2)
  {
  }

  /** `float` does not evaluate a fraction: by `ParseLineWellFormed`, a line
      `16:9,16/9` is rejected with `NotANumber("16/9")`. */
  lemma ParseDecimalRejectsFraction()
    ensures ParseDecimal("16/9") == None
  {
    var t := "16/9";
    assert !IsSpace(t[0]) && !IsSpace(t[3]) && !IsDigit(t[2]);
    StripTrimmed(t);
    assert '.' !in t;
    SplitNoSeparator(t, '.');
  }

  /** A blank line has one empty field, which cannot be unpacked into two. */
  lemma ParseLineExampleBlank()
    ensures ParseLine("\n") == Malformed(FieldCount(1))
  {
  }

  // ---------------------------------------------------------------------------
  // The whole file, as values

  /** The two parallel lists `aspect_ratios` and `aspect_ratio_labels`. */
  datatype Table = Table(ratios: seq<real>, labels: seq<string>)

  predicate Aligned(t: Table) {
    |t.ratios| == |t.labels|
  }

  /** The built-in entries 1:1, 3:2, 4:3 and 16:9: four aligned pairs, with
      neither a label nor a ratio listed twice. */
  function Defaults(): (d: Table)
    ensures Aligned(d) && |d.labels| == 4
    ensures Distinct(d.labels) && Distinct(d.ratios)
  {
    var d := Table([1.0, 3.0 / 2.0, 4.0 / 3.0, 16.0 / 9.0], ["1:1", "3:2", "4:3", "16:9"]);
    assert d.ratios[1] == 1.5 && d.ratios[2] == 4.0 / 3.0 && d.ratios[3] == 16.0 / 9.0;
    d
  }

  /** The entries pair by pair: `labels[i]` goes with `ratios[i]`. */
  function Pairs(t: Table): (ps: seq<(string, real)>)
    requires Aligned(t)
    ensures |ps| == |t.labels|
  {
    seq(|t.labels|, i requires 0 <= i < |t.labels| => (t.labels[i], t.ratios[i]))
  }

  /** The duplicate test of the reading loop. */
  predicate Present(t: Table, name: string, ratio: real) {
    name in t.labels || ratio in t.ratios
  }

  /** The body of the reading loop for one entry: the pair is appended to
      both lists exactly when neither its label nor its ratio is listed, and
      afterwards it is covered. */
  function AddIfNew(t: Table, name: string, ratio: real): (r: Table)
    ensures Present(r, name, ratio)
    ensures r == t <==> Present(t, name, ratio)
    ensures r != t ==> r.ratios == t.ratios + [ratio] && r.labels == t.labels + [name]
  {
    if Present(t, name, ratio) then t else Table(t.ratios + [ratio], t.labels + [name])
  }

  /** Every line of the file, parsed on its own. */
  function ParseAll(lines: seq<string>): (ps: seq<Parsed>)
    ensures |ps| == |lines| && forall i :: 0 <= i < |lines| ==> ps[i] == ParseLine(lines[i])
  {
    seq(|lines|, i requires 0 <= i < |lines| => ParseLine(lines[i]))
  }

  /** What the reading loop does to the lists, given the parsed lines: skip
      comments, stop at the first bad line, add each entry unless its label or
      its ratio is already there. */
  function Fold(t: Table, ps: seq<Parsed>): (r: Table)
    ensures t.ratios <= r.ratios && t.labels <= r.labels
    ensures |r.ratios| - |t.ratios| == |r.labels| - |t.labels|
    decreases |ps|
  {
    if ps == [] then t
    else
      match ps[0]
      case Comment => Fold(t, ps[1..])
      case Malformed(_) => t
      case Entry(name, ratio) => Fold(AddIfNew(t, name, ratio), ps[1..])
  }

  /** Where the read aborts: which line (counting from 0) and why. */
  datatype Failure = Failure(line: nat, why: LineError)

  /** The first bad line among the parsed lines, if any. */
  function Stop(ps: seq<Parsed>): (r: Option<Failure>)
    ensures r.None? <==> forall j :: 0 <= j < |ps| ==> !ps[j].Malformed?
    ensures r.Some? ==> r.value.line < |ps| && ps[r.value.line] == Malformed(r.value.why)
    ensures r.Some? ==> forall j :: 0 <= j < r.value.line ==> !ps[j].Malformed?
  {
    if ps == [] then None
    else
      match ps[0]
      case Malformed(why) => Some(Failure(0, why))
      case _ =>
        match Stop(ps[1..])
        case None => None
        case Some(f) => Some(Failure(f.line + 1, f.why))
  }

  /** The first bad line among the parsed lines is the one at `i` when no
      line before it is bad. */
  lemma StopAt(ps: seq<Parsed>, i: nat, why: LineError)
    requires i < |ps| && ps[i] == Malformed(why)
    requires forall j :: 0 <= j < i ==> !ps[j].Malformed?
    ensures Stop(ps) == Some(Failure(i, why))
  {
  }

  /** The entries among the parsed lines, in order, up to the first bad one. */
  function EntriesOf(ps: seq<Parsed>): seq<(string, real)> {
    if ps == [] then []
    else
      match ps[0]
      case Comment => EntriesOf(ps[1..])
      case Malformed(_) => []
      case Entry(name, ratio) => [(name, ratio)] + EntriesOf(ps[1..])
  }

  /** The lists after reading `lines` into `t`. Reading only appends: both
      old lists are prefixes of the new ones, and both grow by the same
      number of entries, so aligned lists stay aligned. */
  function Merged(t: Table, lines: seq<string>): (r: Table)
    ensures t.ratios <= r.ratios && t.labels <= r.labels
    ensures |r.ratios| - |t.ratios| == |r.labels| - |t.labels|
    ensures Aligned(t) ==> Aligned(r)
  {
    Fold(t, ParseAll(lines))
  }

  /** The line the reader rejects first, if any: the line of the `ValueError`. */
  function FirstError(lines: seq<string>): (r: Option<Failure>)
    ensures r.None? <==> forall j :: 0 <= j < |lines| ==> !ParseLine(lines[j]).Malformed?
    ensures r.Some? ==> r.value.line < |lines| && ParseLine(lines[r.value.line]) == Malformed(r.value.why)
    ensures r.Some? ==> forall j :: 0 <= j < r.value.line ==> !ParseLine(lines[j]).Malformed?
  {
    var ps := ParseAll(lines);
    var r := Stop(ps);
    assert r.None? <==> forall j :: 0 <= j < |lines| ==> !ps[j].Malformed?;
    r
  }

  /** The entries of the file in order, up to the first bad line. */
  function Entries(lines: seq<string>): seq<(string, real)> {
    EntriesOf(ParseAll(lines))
  }

  /** `read_aspect_ratios`: a missing file (`None`) leaves the lists alone and
      reports nothing; a failure names a line of the file. */
  function Read(t: Table, file: Option<seq<string>>): (r: (Table, Option<Failure>))
    ensures file.None? ==> r == (t, None)
    ensures t.ratios <= r.0.ratios && t.labels <= r.0.labels
    ensures r.1.Some? ==> file.Some? && r.1.value.line < |file.value|
  {
    match file
    case None => (t, None)
    case Some(lines) => (Merged(t, lines), FirstError(lines))
  }

  predicate IsSubsequence<T(==)>(a: seq<T>, b: seq<T>) {
    a == [] || (b != [] && ((a[0] == b[0] && IsSubsequence(a[1..], b[1..])) || IsSubsequence(a, b[1..])))
  }

  predicate Distinct<T(==)>(s: seq<T>) {
    forall i, j :: 0 <= i < j < |s| ==> s[i] != s[j]
  }

  // ---------------------------------------------------------------------------
  // Properties of the loop, on parsed lines

  lemma {:induction false} FoldInOrder(t: Table, ps: seq<Parsed>)
    requires Aligned(t)
    ensures Aligned(Fold(t, ps))
    ensures Pairs(t) <= Pairs(Fold(t, ps))
    ensures IsSubsequence(Pairs(Fold(t, ps))[|t.labels|..], EntriesOf(ps))
    decreases |ps|
  {
    var m := Fold(t, ps);
    if ps == [] {
      assert Pairs(m)[|t.labels|..] == [];
    } else {
      match ps[0]
      case Comment =>
        FoldInOrder(t, ps[1..]);
      case Malformed(_) =>
        assert Pairs(m)[|t.labels|..] == [];
      case Entry(name, ratio) =>
        var u := AddIfNew(t, name, ratio);
        FoldInOrder(u, ps[1..]);
        var es := EntriesOf(ps[1..]);
        assert EntriesOf(ps) == [(name, ratio)] + es;
        if Present(t, name, ratio) {
          SubsequenceCons(Pairs(m)[|t.labels|..], (name, ratio), es);
        } else {
          assert Pairs(u) == Pairs(t) + [(name, ratio)];
          var rest := Pairs(m)[|u.labels|..];
          assert Pairs(m)[|t.labels|..] == [(name, ratio)] + rest;
        }
    }
  }

  /** One step of `Fold`, at position `i` of the parsed lines. */
  lemma FoldStep(t: Table, ps: seq<Parsed>, i: nat)
    requires i < |ps|
    ensures ps[i].Comment? ==> Fold(t, ps[i..]) == Fold(t, ps[i + 1..])
    ensures ps[i].Malformed? ==> Fold(t, ps[i..]) == t
    ensures ps[i].Entry? ==> Fold(t, ps[i..]) == Fold(AddIfNew(t, ps[i].name, ps[i].ratio), ps[i + 1..])
  {
  }

  /** What one parsed line does to the lists when no line before it failed. */
  function Step(t: Table, p: Parsed): Table {
    match p
    case Entry(name, ratio) => AddIfNew(t, name, ratio)
    case _ => t
  }

  /** The loop one line at a time: a parsed line at the end, after lines that
      are all good, is applied to the lists those lines produced. */
  lemma {:induction false} FoldSnoc(t: Table, ps: seq<Parsed>, p: Parsed)
    requires forall j :: 0 <= j < |ps| ==> !ps[j].Malformed?
    ensures Fold(t, ps + [p]) == Step(Fold(t, ps), p)
    decreases |ps|
  {
    if ps == [] {
      assert ps + [p] == [p] && [p][1..] == [];
    } else {
      assert (ps + [p])[0] == ps[0] && (ps + [p])[1..] == ps[1..] + [p];
      match ps[0]
      case Comment => FoldSnoc(t, ps[1..], p);
      case Entry(name, ratio) => FoldSnoc(AddIfNew(t, name, ratio), ps[1..], p);
    }
  }

  lemma SubsequenceCons<T>(a: seq<T>, x: T, b: seq<T>)
    requires IsSubsequence(a, b)
    ensures IsSubsequence(a, [x] + b)
  {
    assert ([x] + b)[1..] == b;
  }

  lemma {:induction false} FoldCovers(t: Table, ps: seq<Parsed>)
    ensures forall e :: e in EntriesOf(ps) ==> Present(Fold(t, ps), e.0, e.1)
    decreases |ps|
  {
    if ps != [] {
      match ps[0]
      case Comment => FoldCovers(t, ps[1..]);
      case Malformed(_) =>
      case Entry(name, ratio) =>
        var u := AddIfNew(t, name, ratio);
        FoldCovers(u, ps[1..]);
        var m := Fold(u, ps[1..]);
        assert Present(m, name, ratio) by {
          if name in u.labels {
            assert name in m.labels;
          } else {
            assert ratio in m.ratios;
          }
        }
    }
  }

  lemma {:induction false} FoldCoveredUnchanged(t: Table, ps: seq<Parsed>)
    requires forall e :: e in EntriesOf(ps) ==> Present(t, e.0, e.1)
    ensures Fold(t, ps) == t
    decreases |ps|
  {
    if ps != [] {
      match ps[0]
      case Comment => FoldCoveredUnchanged(t, ps[1..]);
      case Malformed(_) =>
      case Entry(name, ratio) =>
        assert (name, ratio) in EntriesOf(ps);
        FoldCoveredUnchanged(t, ps[1..]);
    }
  }

  lemma {:induction false} FoldKeepsDistinct(t: Table, ps: seq<Parsed>)
    ensures Distinct(t.labels) ==> Distinct(Fold(t, ps).labels)
    ensures Distinct(t.ratios) ==> Distinct(Fold(t, ps).ratios)
    decreases |ps|
  {
    if ps != [] {
      match ps[0]
      case Comment => FoldKeepsDistinct(t, ps[1..]);
      case Malformed(_) =>
      case Entry(name, ratio) =>
        var u := AddIfNew(t, name, ratio);
        assert Distinct(t.labels) ==> Distinct(u.labels);
        assert Distinct(t.ratios) ==> Distinct(u.ratios);
        FoldKeepsDistinct(u, ps[1..]);
    }
  }

  lemma {:induction false} FoldStopsAtError(t: Table, ps: seq<Parsed>)
    requires Stop(ps).Some?
    ensures var k := Stop(ps).value.line;
            Fold(t, ps) == Fold(t, ps[..k])
    decreases |ps|
  {
    var k := Stop(ps).value.line;
    if k == 0 {
      assert ps[..k] == [];
    } else {
      assert ps[..k][0] == ps[0] && ps[..k][1..] == ps[1..][..k - 1];
      assert Stop(ps[1..]).Some? && Stop(ps[1..]).value.line == k - 1;
      match ps[0]
      case Comment => FoldStopsAtError(t, ps[1..]);
      case Entry(name, ratio) => FoldStopsAtError(AddIfNew(t, name, ratio), ps[1..]);
    }
  }

  lemma {:induction false} FoldSkipsComment(t: Table, a: seq<Parsed>, b: seq<Parsed>)
    ensures Fold(t, a + [Comment] + b) == Fold(t, a + b)
    decreases |a|
  {
    var whole := a + [Comment] + b;
    if a == [] {
      assert whole == [Comment] + b && whole[1..] == b && a + b == b;
    } else {
      assert whole[0] == a[0] && whole[1..] == a[1..] + [Comment] + b;
      assert (a + b)[0] == a[0] && (a + b)[1..] == a[1..] + b;
      match a[0]
      case Comment => FoldSkipsComment(t, a[1..], b);
      case Malformed(_) =>
      case Entry(name, ratio) => FoldSkipsComment(AddIfNew(t, name, ratio), a[1..], b);
    }
  }

  /** A failure as reported after a line was inserted at index `at`: a line
      from `at` on has moved down by one. */
  function ShiftFailure(f: Option<Failure>, at: nat): Option<Failure> {
    match f
    case None => None
    case Some(x) => Some(Failure(if x.line < at then x.line else x.line + 1, x.why))
  }

  lemma StopSkipsComment(a: seq<Parsed>, b: seq<Parsed>)
    ensures Stop(a + [Comment] + b) == ShiftFailure(Stop(a + b), |a|)
  {
    var whole, short := a + [Comment] + b, a + b;
    assert forall j :: 0 <= j < |a| ==> whole[j] == short[j];
    assert forall j :: |a| < j < |whole| ==> whole[j] == short[j - 1];
    match Stop(short)
    case None =>
      assert forall j :: 0 <= j < |whole| ==> !whole[j].Malformed?;
    case Some(f) =>
      var k := if f.line < |a| then f.line else f.line + 1;
      assert whole[k] == short[f.line];
      StopAt(whole, k, f.why);
  }

  // ---------------------------------------------------------------------------
  // Properties of reading a file

  /** The appended pairs are entries of the file, kept in file order, each
      label still next to the ratio of its own line. */
  lemma MergedInFileOrder(t: Table, lines: seq<string>)
    requires Aligned(t)
    ensures Aligned(Merged(t, lines))
    ensures Pairs(t) <= Pairs(Merged(t, lines))
    ensures IsSubsequence(Pairs(Merged(t, lines))[|t.labels|..], Entries(lines))
  {
    FoldInOrder(t, ParseAll(lines));
  }

  /** After reading, every entry of the file up to the first bad line has its
      label or its ratio in the lists: an entry is left out only because it
      duplicates one that is there. */
  lemma MergedCovers(t: Table, lines: seq<string>)
    ensures forall e :: e in Entries(lines) ==> Present(Merged(t, lines), e.0, e.1)
  {
    FoldCovers(t, ParseAll(lines));
  }

  /** Reading never introduces a duplicate: labels that were distinct stay
      distinct, and so do ratios. */
  lemma MergedKeepsDistinct(t: Table, lines: seq<string>)
    ensures Distinct(t.labels) ==> Distinct(Merged(t, lines).labels)
    ensures Distinct(t.ratios) ==> Distinct(Merged(t, lines).ratios)
  {
    FoldKeepsDistinct(t, ParseAll(lines));
  }

  /** Reading the same file a second time changes nothing and fails, if it
      does, at the same line. */
  lemma ReadIdempotent(t: Table, file: Option<seq<string>>)
    ensures Read(Read(t, file).0, file) == Read(t, file)
  {
    if file.Some? {
      var ps := ParseAll(file.value);
      FoldCovers(t, ps);
      FoldCoveredUnchanged(Fold(t, ps), ps);
    }
  }

  lemma ParseAllPrefix(lines: seq<string>, k: nat)
    requires k <= |lines|
    ensures ParseAll(lines[..k]) == ParseAll(lines)[..k]
  {
  }

  lemma ParseAllAppend(a: seq<string>, b: seq<string>)
    ensures ParseAll(a + b) == ParseAll(a) + ParseAll(b)
  {
  }

  /** A read that fails keeps what the lines before the failing one added:
      the lists are as if the file had ended just before that line. */
  lemma MergedStopsAtError(t: Table, lines: seq<string>)
    requires FirstError(lines).Some?
    ensures var k := FirstError(lines).value.line;
            Merged(t, lines) == Merged(t, lines[..k]) && FirstError(lines[..k]).None?
  {
    var ps := ParseAll(lines);
    assert FirstError(lines) == Stop(ps);
    var k := Stop(ps).value.line;
    FoldStopsAtError(t, ps);
    ParseAllPrefix(lines, k);
    StopBeforeError(ps);
    assert FirstError(lines[..k]) == Stop(ParseAll(lines[..k]));
  }

  /** The lines before the first bad one hold no bad line. */
  lemma StopBeforeError(ps: seq<Parsed>)
    requires Stop(ps).Some?
    ensures Stop(ps[..Stop(ps).value.line]).None?
  {
  }

  /** A comment line anywhere in the file adds nothing, and the read fails
      with it exactly when it fails without it, for the same reason, on the
      same line once the inserted line is counted. */
  lemma MergedSkipsComment(t: Table, a: seq<string>, c: string, b: seq<string>)
    requires StartsWith(c, '#')
    ensures Merged(t, a + [c] + b) == Merged(t, a + b)
    ensures FirstError(a + [c] + b) == ShiftFailure(FirstError(a + b), |a|)
  {
    ParseAllAppend(a + [c], b);
    ParseAllAppend(a, [c]);
    ParseAllAppend(a, b);
    var pa, pb := ParseAll(a), ParseAll(b);
    assert ParseAll([c]) == [Comment];
    assert ParseAll(a + [c] + b) == pa + [Comment] + pb;
    FoldSkipsComment(t, pa, pb);
    StopSkipsComment(pa, pb);
    assert FirstError(a + [c] + b) == Stop(pa + [Comment] + pb);
    assert FirstError(a + b) == Stop(pa + pb);
  }

  /** Reading line by line: a line after lines that all read well adds its
      entry exactly when the entry is new to the lists those lines produced,
      and adds nothing otherwise. With `Merged(t, []) == t` this fixes the
      lists after every prefix of the file up to the first bad line. */
  lemma MergedSnoc(t: Table, lines: seq<string>, line: string)
    requires FirstError(lines).None?
    ensures Merged(t, lines + [line]) ==
              match ParseLine(line)
              case Entry(name, ratio) => AddIfNew(Merged(t, lines), name, ratio)
              case _ => Merged(t, lines)
  {
    var ps := ParseAll(lines);
    ParseAllAppend(lines, [line]);
    assert ParseAll([line]) == [ParseLine(line)];
    assert forall j :: 0 <= j < |ps| ==> !ps[j].Malformed?;
    FoldSnoc(t, ps, ParseLine(line));
  }

  /** The first of two lines with the same label wins: once a line's entry is
      appended, a later line with that label adds nothing, whatever its ratio.
      Stated on the parsed lines; `MergedSnoc` carries it to the file's text. */
  lemma FoldKeepsFirst(t: Table, ps: seq<Parsed>, name: string, first: real, later: real)
    requires forall j :: 0 <= j < |ps| ==> !ps[j].Malformed?
    requires !Present(Fold(t, ps), name, first)
    ensures Fold(t, ps + [Entry(name, first)]) == AddIfNew(Fold(t, ps), name, first)
    ensures Fold(t, ps + [Entry(name, first), Entry(name, later)]) == Fold(t, ps + [Entry(name, first)])
  {
    var head := ps + [Entry(name, first)];
    FoldSnoc(t, ps, Entry(name, first));
    assert forall j :: 0 <= j < |head| ==> !head[j].Malformed?;
    FoldSnoc(t, head, Entry(name, later));
    assert head + [Entry(name, later)] == ps + [Entry(name, first), Entry(name, later)];
  }

  /** The lists after one build per file in `files`, in order. */
  function MergedAll(t: Table, files: seq<seq<string>>): Table
    decreases |files|
  {
    if files == [] then t else MergedAll(Merged(t, files[0]), files[1..])
  }

  /** The built-in lists are aligned and hold neither a duplicate label nor a
      duplicate ratio, so no sequence of reads ever produces one. */
  lemma DefaultsWellFormed(files: seq<seq<string>>)
    ensures var t := MergedAll(Defaults(), files);
            Aligned(t) && Distinct(t.labels) && Distinct(t.ratios)
  {
    MergedAllWellFormed(Defaults(), files);
  }

  lemma {:induction false} MergedAllWellFormed(t: Table, files: seq<seq<string>>)
    requires Aligned(t) && Distinct(t.labels) && Distinct(t.ratios)
    ensures var u := MergedAll(t, files);
            Aligned(u) && Distinct(u.labels) && Distinct(u.ratios)
    decreases |files|
  {
    if files != [] {
      MergedKeepsDistinct(t, files[0]);
      MergedAllWellFormed(Merged(t, files[0]), files[1..]);
    }
  }

  // ---------------------------------------------------------------------------
  // The script object

  /** The picker script. The two lists are class attributes in the source, so
      every instance shares them; one object of this class stands for that
      shared state, and it lives as long as the host process. */
  class AspectRatioScript {
    var ratios: seq<real>
    var labels: seq<string>

    function State(): Table
      reads this
    {
      Table(ratios, labels)
    }

    constructor ()
      ensures State() == Defaults()
    {
      ratios := Defaults().ratios;
      labels := Defaults().labels;
    }

    /** `read_aspect_ratios`: `file` is the content of `aspect_ratios.txt` as
        `readlines` returns it, or `None` when the file does not exist. The
        result is the `ValueError` the source raises, if any; the entries
        appended before it stay. A line starting with `#` is skipped; any
        other line goes through `ParseFields` (strip, split on `,`, unpack,
        cut at `#`, `float`), and an entry is appended to both lists unless
        its label or its ratio is already listed. */
    method ReadAspectRatios(file: Option<seq<string>>) returns (failure: Option<Failure>)
      modifies this
      ensures file.None? ==> ratios == old(ratios) && labels == old(labels) && failure.None?
      ensures file.Some? ==> State() == Merged(old(State()), file.value)
      ensures file.Some? ==> failure == FirstError(file.value)
      ensures Aligned(old(State())) ==> Aligned(State())
    {
      if file.None? {
        return None;
      }
      var lines := file.value;
      ghost var ps, start := ParseAll(lines), State();
      assert FirstError(lines) == Stop(ps);
      for i := 0 to |lines|
        invariant Fold(start, ps) == Fold(State(), ps[i..])
        invariant forall j :: 0 <= j < i ==> !ps[j].Malformed?
      {
        ghost var t := State();
        FoldStep(t, ps, i);
        var line := lines[i];
        if StartsWith(line, '#') {
          continue;
        }
        ParsedAt(lines, i);
        match ParseFields(Split(Strip(line), ','))
        case Malformed(why) =>
          StopAt(ps, i, why);
          return Some(Failure(i, why));
        case Entry(name, ratio) =>
          if name in labels || ratio in ratios {
            continue;
          }
          ratios := ratios + [ratio];
          labels := labels + [name];
      }
      assert ps[|lines|..] == [];
      return None;
    }
  }

  /** Building the buttons twice in a row with the same file: the second read
      finds the lists exactly as the first one left them. */
  method BuildTwice(file: Option<seq<string>>) returns (first: Table, second: Table)
    ensures first == second == Read(Defaults(), file).0
  {
    var script := new AspectRatioScript();
    var _ := script.ReadAspectRatios(file);
    first := script.State();
    var _ := script.ReadAspectRatios(file);
    second := script.State();
    ReadIdempotent(Defaults(), file);
  }
}
