/**
  src/validators/imageValidator.ts: the express-validator chains for the
  `filename` route parameter and the optional `resolution` query parameter,
  and the final middleware that answers 400 or hands over to the handler.
 */
module ImageValidator {
  import opened Wrappers
  import opened Decimal

  predicate EndsWith(s: string, suffix: string) {
    |suffix| <= |s| && s[|s| - |suffix|..] == suffix
  }

  /** `/\.(png|jpg|jpeg)$/`: case-sensitive, anchored at the end only. */
  predicate HasImageExtension(filename: string) {
    EndsWith(filename, ".png") || EndsWith(filename, ".jpg") || EndsWith(filename, ".jpeg")
  }

  /** A name with one of the three extensions after a '.' at its end. */
  predicate DotExtension(filename: string, k: int) {
    && 0 <= k < |filename| && filename[k] == '.'
    && (filename[k + 1..] == "png" || filename[k + 1..] == "jpg" || filename[k + 1..] == "jpeg")
  }

  /** The regular expression read as text: a '.' and one of the three extensions end the name. */
  lemma ImageExtensionShape(filename: string)
    ensures HasImageExtension(filename) <==> exists k :: DotExtension(filename, k)
  {
    if HasImageExtension(filename) {
      var n := |filename|;
      var k := if EndsWith(filename, ".jpeg") then n - 5 else n - 4;
      assert filename[k..] == [filename[k]] + filename[k + 1..];
      assert DotExtension(filename, k);
    }
    if k :| DotExtension(filename, k) {
      DotExtensionEnds(filename, k);
    }
  }

  lemma DotExtensionEnds(filename: string, k: int)
    requires DotExtension(filename, k)
    ensures HasImageExtension(filename)
  {
    var ext := filename[k + 1..];
    assert filename[|filename| - |ext| - 1..] == "." + ext;
  }

  /** `/^\d+x\d+$/` (without the `u` flag `\d` is the ASCII digits). */
  predicate IsResolution(r: string) {
    exists i :: 0 < i < |r| - 1 && r[i] == 'x' && AllDigits(r[..i]) && AllDigits(r[i + 1..])
  }

  /**
    An accepted resolution is a string of digits and exactly one 'x', with a digit
    at each end.
   */
  lemma ResolutionShape(r: string)
    ensures IsResolution(r) <==>
      && |r| > 0
      && IsDigit(r[0]) && IsDigit(r[|r| - 1])
      && (forall k :: 0 <= k < |r| ==> IsDigit(r[k]) || r[k] == 'x')
      && (exists k :: 0 <= k < |r| && r[k] == 'x')
      && (forall j, k :: 0 <= j < k < |r| && r[j] == 'x' ==> r[k] != 'x')
  {
    if IsResolution(r) {
      var i :| 0 < i < |r| - 1 && r[i] == 'x' && AllDigits(r[..i]) && AllDigits(r[i + 1..]);
      assert forall k :: 0 <= k < i ==> r[k] == r[..i][k];
      assert forall k :: i < k < |r| ==> r[k] == r[i + 1..][k - i - 1];
    }
    if && |r| > 0 && IsDigit(r[0]) && IsDigit(r[|r| - 1])
       && (forall k :: 0 <= k < |r| ==> IsDigit(r[k]) || r[k] == 'x')
       && (exists k :: 0 <= k < |r| && r[k] == 'x')
       && (forall j, k :: 0 <= j < k < |r| && r[j] == 'x' ==> r[k] != 'x')
    {
      var i :| 0 <= i < |r| && r[i] == 'x';
      forall k | 0 <= k < i
        ensures IsDigit(r[..i][k])
      {
        assert r[..i][k] == r[k];
      }
      var tail := r[i + 1..];
      forall m | 0 <= m < |tail|
        ensures IsDigit(tail[m])
      {
        assert tail[m] == r[i + 1 + m];
      }
    }
  }

  /** The parts of `s` between occurrences of `c`, like JavaScript's `s.split(c)`. */
  function Split(s: string, c: char): (parts: seq<string>)
    ensures |parts| >= 1
    ensures forall k :: 0 <= k < |parts| ==> c !in parts[k]
    ensures Join(parts, c) == s
  {
    if s == [] then [""]
    else
      var rest := Split(s[1..], c);
      if s[0] == c then
        [""] + rest
      else
        assert [s[0]] + Join(rest, c) == s;
        [[s[0]] + rest[0]] + rest[1..]
  }

  /** The parts put back together with `c` between them: the inverse of `Split`. */
  function Join(parts: seq<string>, c: char): string
    requires |parts| >= 1
  {
    if |parts| == 1 then parts[0] else parts[0] + [c] + Join(parts[1..], c)
  }

  /** Splitting a joined list of separator-free parts gives the parts back. */
  lemma {:induction false} SplitJoin(parts: seq<string>, c: char)
    requires |parts| >= 1
    requires forall k :: 0 <= k < |parts| ==> c !in parts[k]
    ensures Split(Join(parts, c), c) == parts
  {
    if |parts| == 1 {
      SplitFree(parts[0], c);
    } else {
      SplitJoin(parts[1..], c);
      SplitAfter(parts[0], Join(parts[1..], c), c);
    }
  }

  lemma {:induction false} SplitFree(s: string, c: char)
    requires c !in s
    ensures Split(s, c) == [s]
  {
    if s != [] {
      SplitFree(s[1..], c);
      assert [s[0]] + s[1..] == s;
    }
  }

  lemma {:induction false} SplitAfter(a: string, b: string, c: char)
    requires c !in a
    ensures Split(a + [c] + b, c) == [a] + Split(b, c)
  {
    var s := a + [c] + b;
    if a == [] {
      assert s[0] == c && s[1..] == b;
    } else {
      assert s[0] == a[0] && s[1..] == a[1..] + [c] + b;
      SplitAfter(a[1..], b, c);
      assert [a[0]] + a[1..] == a;
    }
  }

  predicate IsNumeral(s: string) {
    |s| > 0 && AllDigits(s)
  }

  lemma DigitsHaveNoX(s: string)
    requires AllDigits(s)
    ensures 'x' !in s
  {
  }

  /** Splitting "{digits}x{digits}" on 'x' gives the two digit strings. */
  lemma SplitNumerals(a: string, b: string)
    requires AllDigits(a) && AllDigits(b)
    ensures Split(a + ['x'] + b, 'x') == [a, b]
  {
    DigitsHaveNoX(a);
    DigitsHaveNoX(b);
    SplitAfter(a, b, 'x');
    SplitFree(b, 'x');
  }

  /**
    A resolution is accepted exactly when splitting it on 'x' gives two
    non-empty digit strings, the shape `resolution.split('x')` in the image
    handler relies on.
   */
  lemma ResolutionSplits(r: string)
    ensures IsResolution(r) <==> (var parts := Split(r, 'x'); |parts| == 2 && IsNumeral(parts[0]) && IsNumeral(parts[1]))
  {
    if IsResolution(r) {
      ResolutionParts(r);
    }
    var parts := Split(r, 'x');
    if |parts| == 2 && IsNumeral(parts[0]) && IsNumeral(parts[1]) {
      JoinTwo(parts, r);
    }
  }

  lemma ResolutionParts(r: string)
    requires IsResolution(r)
    ensures var parts := Split(r, 'x'); |parts| == 2 && IsNumeral(parts[0]) && IsNumeral(parts[1])
  {
    var i :| 0 < i < |r| - 1 && r[i] == 'x' && AllDigits(r[..i]) && AllDigits(r[i + 1..]);
    var a, b := r[..i], r[i + 1..];
    assert r == a + ['x'] + b;
    SplitNumerals(a, b);
  }

  lemma JoinTwo(parts: seq<string>, r: string)
    requires |parts| == 2 && IsNumeral(parts[0]) && IsNumeral(parts[1]) && Join(parts, 'x') == r
    ensures IsResolution(r)
  {
    var i := |parts[0]|;
    assert r == parts[0] + ['x'] + parts[1];
    assert r[..i] == parts[0] && r[i + 1..] == parts[1] && r[i] == 'x';
  }

  /** Width and height of an accepted resolution: `resolution.split('x').map(Number)`. */
  function Dimensions(r: string): (wh: (nat, nat))
    requires IsResolution(r)
    ensures |Split(r, 'x')| == 2 && IsNumeral(Split(r, 'x')[0]) && IsNumeral(Split(r, 'x')[1])
    ensures wh == (ValueOf(Split(r, 'x')[0]), ValueOf(Split(r, 'x')[1]))
  {
    ResolutionSplits(r);
    var parts := Split(r, 'x');
    (ValueOf(parts[0]), ValueOf(parts[1]))
  }

  /** "{w}x{h}" with both numbers written in decimal is accepted and reads back as (w, h). */
  lemma DimensionsOfShow(w: nat, h: nat)
    ensures IsResolution(Show(w) + "x" + Show(h))
    ensures Dimensions(Show(w) + "x" + Show(h)) == (w, h)
  {
    var r := Show(w) + "x" + Show(h);
    assert r == Show(w) + ['x'] + Show(h);
    SplitNumerals(Show(w), Show(h));
    ResolutionSplits(r);
    ValueOfShow(w);
    ValueOfShow(h);
  }

  /** One entry of `validationResult(req).array()`: the field and its message. */
  datatype ValidationError = ValidationError(path: string, msg: string)

  datatype Decision = BadRequest(status: int, errors: seq<ValidationError>) | Next

  const EmptyName := ValidationError("filename", "Image name cannot be empty!")
  const BadExtension := ValidationError("filename", "Image name must have a valid file extension!")
  const EmptyResolution := ValidationError("resolution", "Resolution cannot be empty!")
  const BadResolution := ValidationError("resolution", "Resolution must be in the format {width}x{height}!")

  /** The failures of the `filename` chain, in chain order (every check runs). */
  function FilenameErrors(filename: string): (errors: seq<ValidationError>)
    ensures errors == [] <==> HasImageExtension(filename)
    ensures EmptyName in errors <==> filename == ""
    ensures BadExtension in errors <==> !HasImageExtension(filename)
    ensures forall e :: e in errors ==> e.path == "filename"
  {
    (if filename == "" then [EmptyName] else []) + (if HasImageExtension(filename) then [] else [BadExtension])
  }

  /** The failures of the `resolution` chain: none when the parameter is absent (`optional()`). */
  function ResolutionErrors(resolution: Option<string>): (errors: seq<ValidationError>)
    ensures errors == [] <==> resolution.None? || IsResolution(resolution.value)
    ensures EmptyResolution in errors <==> resolution == Some("")
    ensures BadResolution in errors <==> resolution.Some? && !IsResolution(resolution.value)
    ensures forall e :: e in errors ==> e.path == "resolution"
  {
    match resolution
    case None => []
    case Some(r) =>
      (if r == "" then [EmptyResolution] else []) + (if IsResolution(r) then [] else [BadResolution])
  }

  /** `validateImageRequest`: 400 with every failure, filename first, or on to the handler. */
  function Validate(filename: string, resolution: Option<string>): (d: Decision)
    ensures d == Next <==> HasImageExtension(filename) && (resolution.Some? ==> IsResolution(resolution.value))
    ensures d.BadRequest? ==> d.status == 400 && d.errors != []
    ensures d.BadRequest? ==> d.errors == FilenameErrors(filename) + ResolutionErrors(resolution)
  {
    var errors := FilenameErrors(filename) + ResolutionErrors(resolution);
    if errors == [] then Next else BadRequest(400, errors)
  }

  /** The validator tests: a ".txt" name is refused for its extension. */
  lemma RejectsTextFile()
    ensures Validate("invalid.txt", None) == BadRequest(400, [BadExtension])
  {
    NotAnImage("invalid.txt");
    assert FilenameErrors("invalid.txt") == [BadExtension];
  }

  /** The validator tests: the resolution "100" is refused for its format. */
  lemma RejectsBareNumber()
    ensures Validate("test.jpg", Some("100")) == BadRequest(400, [BadResolution])
  {
    IsImage("test", ".jpg");
    assert FilenameErrors("test.jpg") == [];
    NoSeparator("100");
    assert ResolutionErrors(Some("100")) == [BadResolution];
  }

  /** The validator tests: "test.jpg" at "100x100" goes on to the handler. */
  lemma AcceptsImageAndResolution()
    ensures Validate("test.jpg", Some("100x100")) == Next
  {
    IsImage("test", ".jpg");
    assert FilenameErrors("test.jpg") == [];
    NumeralsMakeResolution("100", "100");
    assert "100" + "x" + "100" == "100x100";
    assert ResolutionErrors(Some("100x100")) == [];
  }

  lemma NumeralsMakeResolution(a: string, b: string)
    requires IsNumeral(a) && IsNumeral(b)
    ensures IsResolution(a + "x" + b)
  {
    var r := a + "x" + b;
    assert r[..|a|] == a && r[|a| + 1..] == b && r[|a|] == 'x';
  }

  /** The extension check is case-sensitive, and an empty `?resolution=` fails both resolution checks. */
  lemma ValidateEdgeExamples()
    ensures Validate("test.JPG", None) == BadRequest(400, [BadExtension])
    ensures Validate("test.png", Some("")) == BadRequest(400, [EmptyResolution, BadResolution])
  {
    NotAnImage("test.JPG");
    assert FilenameErrors("test.JPG") == [BadExtension];
    IsImage("test", ".png");
    assert FilenameErrors("test.png") == [];
    NoSeparator("");
    assert ResolutionErrors(Some("")) == [EmptyResolution, BadResolution];
  }

  lemma IsImage(stem: string, ext: string)
    requires ext in {".png", ".jpg", ".jpeg"}
    ensures HasImageExtension(stem + ext)
  {
    assert (stem + ext)[|stem|..] == ext;
  }

  lemma NotAnImage(f: string)
    requires |f| >= 5 && f[|f| - 4] == '.' && f[|f| - 3] !in "pj" && f[|f| - 4..] != ".jpeg"
    ensures !HasImageExtension(f)
  {
    assert f[|f| - 4..][0] == '.' && f[|f| - 4..][1] == f[|f| - 3];
  }

  lemma NoSeparator(r: string)
    requires 'x' !in r
    ensures !IsResolution(r)
  {
  }
}
