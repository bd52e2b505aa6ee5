/**
 * utils/unembedpng.py: takes `<stem>.html`, writes every `img` whose `src` is
 * an embedded base64 PNG to its own file `<stem>_image<k>.png` and points
 * that `src` at the file, then writes the HTML back.
 *
 * The parsed document is abstracted to its `img` tags in document order, an
 * array of `src` attributes whose entries the loop overwrites in place; a tag
 * without `src` is `None`. Reading and writing files is recorded as a list of
 * effects; the base64 decoding of a payload is not modelled, so a PNG file is
 * recorded with the base64 text it is decoded from.
 */
module UnembedPng {
  import opened Wrappers
  import opened Text

  /** `filename.split(".")[-1]`: the text after the last dot (all of it if there is none). */
  function FileExt(filename: string): (ext: string)
    ensures '.' !in ext
  {
    var parts := Split(filename, '.');
    parts[|parts| - 1]
  }

  /** `".".join(filename.split(".")[:-1])`: the text before the last dot. */
  function FileStem(filename: string): (stem: string)
    ensures stem <= filename
  {
    var parts := Split(filename, '.');
    var n := |parts|;
    JoinSplit(filename, '.');
    if n >= 2 then
      assert parts == parts[..n - 1] + [parts[n - 1]];
      JoinSnoc(parts[..n - 1], parts[n - 1], '.');
      Join(parts[..n - 1], '.')
    else
      Join(parts[..n - 1], '.')
  }

  /** The extension is what follows the last dot and the stem what precedes it;
      a name without a dot is all extension and has an empty stem. */
  lemma FileNameParts(filename: string)
    ensures '.' in filename ==> FileStem(filename) + "." + FileExt(filename) == filename
    ensures '.' !in filename ==> FileExt(filename) == filename && FileStem(filename) == ""
  {
    var parts := Split(filename, '.');
    var n := |parts|;
    JoinSplit(filename, '.');
    if '.' !in filename {
      SplitNoSep(filename, '.');
    } else {
      assert n >= 2;
      assert parts == parts[..n - 1] + [parts[n - 1]];
      JoinSnoc(parts[..n - 1], parts[n - 1], '.');
    }
  }

  /** The extension test accepts a name that is exactly `html`, without a dot:
      its stem is empty, so its images would be named `_image0.png`, ... */
  lemma BareHtmlNameAccepted()
    ensures FileExt("html") == "html" && FileStem("html") == ""
    ensures ImageName(FileStem("html"), 0) == "_image0.png"
  {
    SplitNoSep("html", '.');
  }

  /** The text whose presence marks an embedded PNG. */
  const Marker := "data:image/png;base64"

  /** `"data:image/png;base64" in src`: a data URL of type PNG is one. */
  predicate IsEmbeddedPng(src: string): (b: bool)
    ensures b ==> |Marker| <= |src|
    ensures Marker <= src ==> b
  {
    assert Marker <= src ==> OccursAt(src, Marker, 0);
    Contains(src, Marker)
  }

  /** `src.split(",")[1].replace("\n", "")`: the second comma-separated field
      without its newlines, or None where Python raises IndexError. */
  function Payload(src: string): (r: Option<string>)
    ensures r.Some? ==> '\n' !in r.value && ',' !in r.value
  {
    var fields := Split(src, ',');
    if |fields| < 2 then None
    else
      var p := Remove(fields[1], '\n');
      assert ',' in p ==> multiset(p)[','] > 0;
      assert multiset(fields[1])[','] == 0;
      Some(p)
  }

  /** A `src` has a payload exactly when it contains a comma. */
  lemma PayloadExists(src: string)
    ensures Payload(src).Some? <==> ',' in src
  {
    JoinSplit(src, ',');
    if ',' !in src {
      SplitNoSep(src, ',');
    } else {
      assert |Split(src, ',')| >= 2;
    }
  }

  /** The payload is the second comma-separated field, newlines removed: the text
      between the first comma and the next comma or the end. */
  lemma PayloadIsSecondField(f0: string, f1: string, rest: string)
    requires ',' !in f0 && ',' !in f1
    requires rest == [] || rest[0] == ','
    ensures Payload(f0 + "," + f1 + rest) == Some(Remove(f1, '\n'))
  {
    var src := f0 + "," + f1 + rest;
    if rest == [] {
      assert src == f0 + [','] + f1;
      SplitCons(f0, f1, ',');
      SplitNoSep(f1, ',');
    } else {
      assert src == f0 + [','] + (f1 + [','] + rest[1..]);
      SplitCons(f0, f1 + [','] + rest[1..], ',');
      SplitCons(f1, rest[1..], ',');
    }
  }

  /** `'{}_image{}.png'.format(filestem, i)`. */
  function ImageName(stem: string, i: nat): (name: string)
    ensures stem <= name && |name| == |stem| + |Decimal(i)| + 10
  {
    stem + "_image" + Decimal(i) + ".png"
  }

  /** Different counters give different file names. */
  lemma ImageNameInjective(stem: string, i: nat, j: nat)
    requires ImageName(stem, i) == ImageName(stem, j)
    ensures i == j
  {
    var a, b := ImageName(stem, i), ImageName(stem, j);
    var lo := |stem| + 6;
    assert |Decimal(i)| == |a| - lo - 4 == |Decimal(j)|;
    assert a[lo..|a| - 4] == Decimal(i);
    assert b[lo..|b| - 4] == Decimal(j);
    DecimalInjective(i, j);
  }

  /** A PNG file the loop writes: its name and the payload decoded into it. */
  datatype PngFile = PngFile(name: string, payload: string)

  /** Why the loop stops early: `img["src"]` raises KeyError on a tag without
      `src`; `split(",")[1]` raises IndexError on a marked `src` without a comma. */
  datatype Fault = MissingSrc(tag: nat) | NoComma(tag: nat)

  /** What the loop has left behind: the `src` of every tag, the PNG files
      written in order (so the counter `i` is their number), and the fault
      that stopped it, if any. */
  datatype Pass = Pass(srcs: seq<Option<string>>, files: seq<PngFile>, fault: Option<Fault>)

  /** One iteration of the loop body on the tag at position `k`. */
  function Visit(stem: string, p: Pass, k: nat, tag: Option<string>): (q: Pass)
    requires k < |p.srcs|
    ensures |q.srcs| == |p.srcs|
  {
    match tag
    case None => Pass(p.srcs, p.files, Some(MissingSrc(k)))
    case Some(src) =>
      if !IsEmbeddedPng(src) then p
      else match Payload(src)
        case None => Pass(p.srcs, p.files, Some(NoComma(k)))
        case Some(data) =>
          var name := ImageName(stem, |p.files|);
          Pass(p.srcs[k := Some(name)], p.files + [PngFile(name, data)], None)
  }

  /** The state after the loop has visited the first `j` tags; once a tag has
      raised, no later tag is visited. */
  function Loop(stem: string, tags: seq<Option<string>>, j: nat): (p: Pass)
    requires j <= |tags|
    ensures |p.srcs| == |tags|
    decreases j
  {
    if j == 0 then Pass(tags, [], None)
    else
      var p := Loop(stem, tags, j - 1);
      if p.fault.Some? then p else Visit(stem, p, j - 1, tags[j - 1])
  }

  /** The whole loop over the document's tags. */
  function Unembed(stem: string, tags: seq<Option<string>>): Pass
  {
    Loop(stem, tags, |tags|)
  }

  /** Once the loop has raised, nothing changes any more. */
  lemma {:induction false} FaultSticks(stem: string, tags: seq<Option<string>>, j: nat, n: nat)
    requires j <= n <= |tags| && Loop(stem, tags, j).fault.Some?
    ensures Loop(stem, tags, n) == Loop(stem, tags, j)
    decreases n
  {
    if n > j {
      FaultSticks(stem, tags, j, n - 1);
    }
  }

  /** The `img` loop: rewrites `tags` in place and returns the final counter,
      the files written, and the fault that stopped it, if any. */
  method RewriteImages(stem: string, tags: array<Option<string>>)
    returns (i: nat, written: seq<PngFile>, fault: Option<Fault>)
    modifies tags
    ensures Unembed(stem, old(tags[..])) == Pass(tags[..], written, fault)
    ensures i == |written|
  {
    ghost var orig := tags[..];
    i, written, fault := 0, [], None;
    var j := 0;
    while j < tags.Length
      invariant 0 <= j <= tags.Length == |orig|
      invariant i == |written|
      invariant Loop(stem, orig, j) == Pass(tags[..], written, None)
    {
      var tag := tags[j];
      LoopClean(stem, orig, j);
      assert tags[..][j..][0] == tag == orig[j..][0] == orig[j];
      if tag.None? {
        fault := Some(MissingSrc(j));
        FaultSticks(stem, orig, j + 1, |orig|);
        return;
      }
      var src := tag.value;
      if IsEmbeddedPng(src) {
        var data := Payload(src);
        if data.None? {
          fault := Some(NoComma(j));
          FaultSticks(stem, orig, j + 1, |orig|);
          return;
        }
        var name := ImageName(stem, i);
        written := written + [PngFile(name, data.value)];
        tags[j] := Some(name);
        i := i + 1;
      }
      j := j + 1;
    }
  }

  /** What the script does to the outside world, in order. */
  datatype Effect = ReadHtml(path: string) | WritePng(file: PngFile) | WriteHtml(path: string)

  function WritesOf(files: seq<PngFile>): (es: seq<Effect>)
    ensures |es| == |files|
    ensures forall k :: 0 <= k < |files| ==> es[k] == WritePng(files[k])
  {
    if files == [] then [] else [WritePng(files[0])] + WritesOf(files[1..])
  }

  /** The whole script on `filename`, whose parsed `img` tags are `tags`. */
  method Run(filename: string, tags: array<Option<string>>) returns (effects: seq<Effect>)
    modifies tags
    ensures FileExt(filename) != "html" ==> effects == [] && tags[..] == old(tags[..])
    ensures FileExt(filename) == "html" ==>
      var p := Unembed(FileStem(filename), old(tags[..]));
      && tags[..] == p.srcs
      && effects == [ReadHtml(filename)] + WritesOf(p.files)
                    + (if p.fault.None? then [WriteHtml(filename)] else [])
  {
    var fileext := FileExt(filename);
    var filestem := FileStem(filename);
    if fileext != "html" {
      return [];
    }
    effects := [ReadHtml(filename)];
    var i, written, fault := RewriteImages(filestem, tags);
    effects := effects + WritesOf(written);
    if fault.None? {
      effects := effects + [WriteHtml(filename)];
    }
  }

  /** The number of tags in `tags` that hold an embedded PNG. */
  function Matches(tags: seq<Option<string>>): nat
    decreases |tags|
  {
    if tags == [] then 0
    else
      var last := tags[|tags| - 1];
      Matches(tags[..|tags| - 1]) + (if last.Some? && IsEmbeddedPng(last.value) then 1 else 0)
  }

  /** A tag on which the loop raises: no `src`, or a marked `src` without a comma. */
  predicate Bad(tag: Option<string>)
  {
    tag.None? || (IsEmbeddedPng(tag.value) && Payload(tag.value).None?)
  }

  /** No tag raises. */
  predicate Clean(tags: seq<Option<string>>)
  {
    forall k :: 0 <= k < |tags| ==> !Bad(tags[k])
  }

  /** The position of the first tag that raises, or the number of tags if none does. */
  function FirstBad(tags: seq<Option<string>>): (f: nat)
    ensures f <= |tags| && Clean(tags[..f])
    ensures f < |tags| ==> Bad(tags[f])
    decreases |tags|
  {
    if tags == [] then 0
    else if Bad(tags[0]) then 0
    else
      var f := 1 + FirstBad(tags[1..]);
      assert forall k :: 1 <= k < f ==> tags[..f][k] == tags[1..][..f - 1][k - 1];
      f
  }

  /** Up to position `j` the loop raises exactly when some tag there raises; while
      it has not, it has written one file per embedded PNG seen, and it has not
      touched any tag from position `j` on. */
  lemma {:induction false} LoopClean(stem: string, tags: seq<Option<string>>, j: nat)
    requires j <= |tags|
    ensures var p := Loop(stem, tags, j);
            && (p.fault.None? <==> Clean(tags[..j]))
            && (p.fault.None? ==> |p.files| == Matches(tags[..j]))
            && p.srcs[j..] == tags[j..]
    decreases j
  {
    if j == 0 {
      assert tags[..0] == [];
    } else {
      LoopClean(stem, tags, j - 1);
      assert tags[..j][..j - 1] == tags[..j - 1];
      assert tags[..j][j - 1] == tags[j - 1];
      var p := Loop(stem, tags, j - 1);
      if Clean(tags[..j]) {
        assert Clean(tags[..j - 1]) by {
          forall k | 0 <= k < j - 1 ensures tags[..j - 1][k] == tags[..j][k] {}
        }
      } else if p.fault.None? {
        assert Clean(tags[..j - 1]);
        assert !Clean(tags[..j]);
        assert Bad(tags[j - 1]) by {
          forall k | 0 <= k < j - 1 ensures tags[..j][k] == tags[..j - 1][k] {}
        }
      }
    }
  }

  /** How the loop ends: it stops at the first tag that raises, leaving that tag
      and all later ones as they were; without a fault every tag was visited and
      one file written per embedded PNG, so the final counter is their number. */
  lemma UnembedOutcome(stem: string, tags: seq<Option<string>>)
    ensures var p := Unembed(stem, tags);
            var f := FirstBad(tags);
            && (p.fault.None? <==> Clean(tags))
            && (p.fault.None? ==> |p.files| == Matches(tags))
            && |p.files| == Matches(tags[..f])
            && p.srcs[f..] == tags[f..]
            && (f < |tags| ==> p.fault == Some(if tags[f].None? then MissingSrc(f) else NoComma(f)))
  {
    var f := FirstBad(tags);
    LoopClean(stem, tags, |tags|);
    LoopClean(stem, tags, f);
    assert tags[..|tags|] == tags;
    if f < |tags| {
      FaultSticks(stem, tags, f + 1, |tags|);
    }
  }

  /** The tag at position `k`, once visited without a fault from it or before it:
      if it is not an embedded PNG it keeps its `src`; otherwise it becomes file
      number `m`, `m` being the number of embedded PNGs before it. That file is
      named with counter `m`, holds the tag's payload, and the tag's new `src` is
      exactly the file's name; later iterations change neither. */
  lemma {:induction false} LoopTag(stem: string, tags: seq<Option<string>>, j: nat, k: nat)
    requires k < j <= |tags| && Clean(tags[..k + 1])
    ensures var p := Loop(stem, tags, j);
            var src := tags[k].value;
            var m := Matches(tags[..k]);
            && (!IsEmbeddedPng(src) ==> p.srcs[k] == tags[k])
            && (IsEmbeddedPng(src) ==>
                  && m < |p.files|
                  && p.files[m] == PngFile(ImageName(stem, m), Payload(src).value)
                  && p.srcs[k] == Some(p.files[m].name))
    decreases j
  {
    assert tags[..k + 1][k] == tags[k];
    if j == k + 1 {
      assert Clean(tags[..k]) by {
        forall q | 0 <= q < k ensures tags[..k][q] == tags[..k + 1][q] {}
      }
      LoopClean(stem, tags, k);
      assert tags[k..][0] == tags[k];
    } else {
      LoopTag(stem, tags, j - 1, k);
    }
  }

  /** Files are named with consecutive counters from 0, in order, without gaps. */
  lemma {:induction false} LoopNames(stem: string, tags: seq<Option<string>>, j: nat)
    requires j <= |tags|
    ensures var p := Loop(stem, tags, j);
            forall n :: 0 <= n < |p.files| ==> p.files[n].name == ImageName(stem, n)
    decreases j
  {
    if j > 0 {
      LoopNames(stem, tags, j - 1);
    }
  }

  /** No two PNG files get the same name. */
  lemma UnembedNamesDistinct(stem: string, tags: seq<Option<string>>)
    ensures var p := Unembed(stem, tags);
            forall m, n :: 0 <= m < n < |p.files| ==> p.files[m].name != p.files[n].name
  {
    var p := Unembed(stem, tags);
    LoopNames(stem, tags, |tags|);
    forall m, n | 0 <= m < n < |p.files| ensures p.files[m].name != p.files[n].name {
      if p.files[m].name == p.files[n].name {
        ImageNameInjective(stem, m, n);
      }
    }
  }
}
