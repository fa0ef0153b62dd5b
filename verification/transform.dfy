/** The per-scan transform mini-language of `imageTransform`
    (magazine-ocr.py:155-227): a command string is read left to right as a
    sequence of rotate / crop / resize commands, and each command is applied
    to the image produced by the previous one.

    Images are modelled by their size only. Rotation with `expand=1` gives a
    canvas whose size depends on trigonometry inside the imaging library, so
    it is a parameter `rotate` of the interpreter. */
module Transform {
  import opened Common
  import opened Decimal

  /** One parsed command. */
  datatype Op =
    | Rotate(degrees: nat)
    | Crop(width: nat, height: nat, xOffset: nat, yOffset: nat)
    | ResizeAbsolute(width: nat, height: nat)
    | ResizePercent(percent: nat)

  /** An image, as far as the transforms can observe it: its size. */
  datatype Image = Image(width: nat, height: nat)

  /** The canvas size produced by rotating an image by some degrees. */
  type Rotation = (Image, nat) -> Image

  // ---------------------------------------------------------------- parsing

  /** Number of leading decimal digits of `s` (what a greedy `[0-9]+` takes). */
  function DigitRun(s: string): (k: nat)
    ensures k <= |s| && AllDigits(s[..k])
    ensures k < |s| ==> !IsDigit(s[k])
  {
    if s == [] || !IsDigit(s[0]) then 0
    else
      var k := 1 + DigitRun(s[1..]);
      assert s[..k] == [s[0]] + s[1..][..k - 1];
      k
  }

  /** A `[0-9]+` group at the start of `s`: its value and the text after it. */
  function Number(s: string): (r: Option<(nat, string)>)
    ensures r.Some? ==> |r.value.1| < |s|
  {
    var k := DigitRun(s);
    if k == 0 then None else Some((Value(s[..k]), s[k..]))
  }

  /** The `(?P<remaining>.*)` group: `.` does not match a newline, so the
      remaining text ends at the first newline. */
  function RestOfLine(s: string): (r: string)
    ensures |r| <= |s|
  {
    if s == [] || s[0] == '\n' then [] else [s[0]] + RestOfLine(s[1..])
  }

  /** `s` with the literal character `c` removed from its front, if it is there. */
  function Literal(c: char, s: string): (r: Option<string>)
    ensures r.Some? ==> |r.value| < |s|
  {
    if s != [] && s[0] == c then Some(s[1..]) else None
  }

  /** `[0-9]+` groups separated by the literal characters `seps`, in order:
      the values of the groups and the text after the last one. */
  function Fields(s: string, seps: string): (r: Option<(seq<nat>, string)>)
    ensures r.Some? ==> |r.value.0| == |seps| + 1 && |r.value.1| < |s|
    decreases |s|
  {
    match Number(s)
    case None => None
    case Some((n, t)) =>
      if seps == [] then Some(([n], t))
      else
        match Literal(seps[0], t)
        case None => None
        case Some(u) =>
          match Fields(u, seps[1..])
          case None => None
          case Some((ns, rest)) => Some(([n] + ns, rest))
  }

  /** `r(?P<degrees>[0-9]+)(?P<remaining>.*)` (magazine-ocr.py:156) */
  function MatchRotate(s: string): (r: Option<(Op, string)>)
    ensures r.Some? ==> r.value.0.Rotate? && |r.value.1| < |s|
  {
    match Literal('r', s)
    case None => None
    case Some(t) =>
      match Fields(t, "")
      case None => None
      case Some((ns, rest)) => Some((Rotate(ns[0]), RestOfLine(rest)))
  }

  /** `c(?P<x_size>[0-9]+)x(?P<y_size>[0-9]+)\+(?P<x_offset>[0-9]+)\+(?P<y_offset>[0-9]+)(?P<remaining>.*)`
      (magazine-ocr.py:157) */
  function MatchCrop(s: string): (r: Option<(Op, string)>)
    ensures r.Some? ==> r.value.0.Crop? && |r.value.1| < |s|
  {
    match Literal('c', s)
    case None => None
    case Some(t) =>
      match Fields(t, "x++")
      case None => None
      case Some((ns, rest)) => Some((Crop(ns[0], ns[1], ns[2], ns[3]), RestOfLine(rest)))
  }

  /** `s(?P<x_size>[0-9]+)x(?P<y_size>[0-9]+)(?P<remaining>.*)` (magazine-ocr.py:158) */
  function MatchResizeAbsolute(s: string): (r: Option<(Op, string)>)
    ensures r.Some? ==> r.value.0.ResizeAbsolute? && |r.value.1| < |s|
  {
    match Literal('s', s)
    case None => None
    case Some(t) =>
      match Fields(t, "x")
      case None => None
      case Some((ns, rest)) => Some((ResizeAbsolute(ns[0], ns[1]), RestOfLine(rest)))
  }

  /** `s(?P<percent>[0-9]+)%(?P<remaining>.*)` (magazine-ocr.py:159) */
  function MatchResizePercent(s: string): (r: Option<(Op, string)>)
    ensures r.Some? ==> r.value.0.ResizePercent? && |r.value.1| < |s|
  {
    match Literal('s', s)
    case None => None
    case Some(t) =>
      match Fields(t, "")
      case None => None
      case Some((ns, t)) =>
        match Literal('%', t)
        case None => None
        case Some(rest) => Some((ResizePercent(ns[0]), RestOfLine(rest)))
  }

  /** One pass of the interpreter loop: the four patterns are tried in a fixed
      order, each anchored at the start of the remaining text. */
  function Step(s: string): (r: Option<(Op, string)>)
    ensures r.Some? ==> |r.value.1| < |s|
  {
    var rot := MatchRotate(s);
    if rot.Some? then rot else
    var crop := MatchCrop(s);
    if crop.Some? then crop else
    var abs := MatchResizeAbsolute(s);
    if abs.Some? then abs else
    MatchResizePercent(s)
  }

  /** The commands a transform string denotes: parsing stops, silently, at
      the end of the text or at the first position where no pattern matches. */
  function Parse(s: string): (ops: seq<Op>)
    ensures |ops| <= |s|
    decreases |s|
  {
    if s == [] then []
    else
      match Step(s)
      case None => []
      case Some((op, rest)) => [op] + Parse(rest)
  }

  // ------------------------------------------------------------- semantics

  /** The size of what `crop((left, upper, right, lower))` returns. */
  function CropBoxSize(left: nat, upper: nat, right: nat, lower: nat): Image
    requires left <= right && upper <= lower
  {
    Image(right - left, lower - upper)
  }

  /** The size of the image a command produces from `img`. */
  function ApplyOp(rotate: Rotation, op: Op, img: Image): Image {
    match op
    case Rotate(d) => rotate(img, d)
    case Crop(w, h, x, y) => CropBoxSize(x, y, x + w, y + h)
    case ResizeAbsolute(w, h) => Image(w, h)
    case ResizePercent(n) => Image((img.width * n) / 100, (img.height * n) / 100)
  }

  /** Commands applied left to right, each to the previous result. */
  function ApplyAll(rotate: Rotation, ops: seq<Op>, img: Image): Image
    decreases |ops|
  {
    if ops == [] then img else ApplyAll(rotate, ops[1..], ApplyOp(rotate, ops[0], img))
  }

  lemma ApplyAllCons(rotate: Rotation, op: Op, ops: seq<Op>, img: Image)
    ensures ApplyAll(rotate, [op] + ops, img) == ApplyAll(rotate, ops, ApplyOp(rotate, op, img))
  {
    assert ([op] + ops)[1..] == ops;
  }

  /** One pass of the loop either consumes a command or ends parsing. */
  lemma ParseStep(s: string)
    requires s != []
    ensures Step(s).None? ==> Parse(s) == []
    ensures Step(s).Some? ==> Parse(s) == [Step(s).value.0] + Parse(Step(s).value.1)
  {
  }

  /** One pass of the `imageTransform` loop (magazine-ocr.py:171-225): the
      four patterns are tried in order against the remaining text; the first
      that matches is applied to the image and its `remaining` group becomes
      the next text. When none matches, the next text is `None`. */
  method TransformOnce(rotate: Rotation, img: Image, remainingCmds: string)
    returns (newImg: Image, nextCmds: Option<string>)
    ensures Step(remainingCmds).None? ==> nextCmds == None && newImg == img
    ensures Step(remainingCmds).Some? ==>
      nextCmds == Some(Step(remainingCmds).value.1) &&
      newImg == ApplyOp(rotate, Step(remainingCmds).value.0, img)
  {
    newImg, nextCmds := img, None;

    var rotateMatch := MatchRotate(remainingCmds);
    if rotateMatch.Some? {
      newImg := rotate(img, rotateMatch.value.0.degrees);
      nextCmds := Some(rotateMatch.value.1);
      return;
    }

    var cropMatch := MatchCrop(remainingCmds);
    if cropMatch.Some? {
      var Crop(w, h, x, y) := cropMatch.value.0;
      newImg := CropBoxSize(x, y, x + w, y + h);
      nextCmds := Some(cropMatch.value.1);
      return;
    }

    var resizeAbsoluteMatch := MatchResizeAbsolute(remainingCmds);
    if resizeAbsoluteMatch.Some? {
      var ResizeAbsolute(w, h) := resizeAbsoluteMatch.value.0;
      newImg := Image(w, h);
      nextCmds := Some(resizeAbsoluteMatch.value.1);
      return;
    }

    var resizePercentMatch := MatchResizePercent(remainingCmds);
    if resizePercentMatch.Some? {
      var n := resizePercentMatch.value.0.percent;
      newImg := Image((img.width * n) / 100, (img.height * n) / 100);
      nextCmds := Some(resizePercentMatch.value.1);
      return;
    }
  }

  /** `imageTransform` (magazine-ocr.py:155-227): an absent or empty command
      string returns the input image itself; otherwise the loop applies the
      parsed commands left to right. */
  method ImageTransform(rotate: Rotation, srcImg: Image, transformCmds: Option<string>)
    returns (newImg: Image)
    ensures transformCmds == None || transformCmds == Some("") ==> newImg == srcImg
    ensures transformCmds.Some? ==> newImg == ApplyAll(rotate, Parse(transformCmds.value), srcImg)
  {
    if transformCmds.None? || |transformCmds.value| == 0 {
      return srcImg;
    }
    newImg := srcImg;
    var nextCmds: Option<string> := transformCmds;
    while nextCmds.Some? && |nextCmds.value| > 0
      invariant nextCmds.Some? ==>
        ApplyAll(rotate, Parse(nextCmds.value), newImg) == ApplyAll(rotate, Parse(transformCmds.value), srcImg)
      invariant nextCmds.None? ==> newImg == ApplyAll(rotate, Parse(transformCmds.value), srcImg)
      decreases if nextCmds.Some? then |nextCmds.value| + 1 else 0
    {
      var remainingCmds := nextCmds.value;
      ParseStep(remainingCmds);
      if Step(remainingCmds).Some? {
        ApplyAllCons(rotate, Step(remainingCmds).value.0, Parse(Step(remainingCmds).value.1), newImg);
      }
      newImg, nextCmds := TransformOnce(rotate, newImg, remainingCmds);
    }
  }

  // ------------------------------------------------------------ properties

  /** Crop to `W`x`H` and absolute resize to `W`x`H` give a `W`x`H` image,
      whatever the input; a percent resize scales both sides by `N/100`,
      rounding down. */
  lemma OpSizes(rotate: Rotation, img: Image, w: nat, h: nat, x: nat, y: nat, n: nat)
    ensures ApplyOp(rotate, Crop(w, h, x, y), img) == Image(w, h)
    ensures ApplyOp(rotate, ResizeAbsolute(w, h), img) == Image(w, h)
    ensures var r := ApplyOp(rotate, ResizePercent(n), img);
      r.width * 100 <= img.width * n < (r.width + 1) * 100 &&
      r.height * 100 <= img.height * n < (r.height + 1) * 100
  {
  }

  /** A 50% resize is written `s50%`. */
  lemma PercentText()
    ensures PrintAll([ResizePercent(50)]) == "s50%"
  {
    assert Show(50) == "50";
    assert [ResizePercent(50)][1..] == [];
  }

  /** `s50%` on a 400x300 image yields 200x150. */
  lemma PercentExample(rotate: Rotation)
    ensures ApplyAll(rotate, Parse("s50%"), Image(400, 300)) == Image(200, 150)
  {
    PercentText();
    PrintAllParses([ResizePercent(50)]);
    assert [ResizePercent(50)][1..] == [];
  }

  /** Running `a` then `b` is running `a` and then running `b` on its result. */
  lemma {:induction false} ApplyAllAppend(rotate: Rotation, a: seq<Op>, b: seq<Op>, img: Image)
    ensures ApplyAll(rotate, a + b, img) == ApplyAll(rotate, b, ApplyAll(rotate, a, img))
  {
    if a != [] {
      assert (a + b)[1..] == a[1..] + b;
      ApplyAllAppend(rotate, a[1..], b, ApplyOp(rotate, a[0], img));
    } else {
      assert a + b == b;
    }
  }

  // --------------------------------------------------- well-formed commands

  /** The canonical text of one command. */
  function Print(op: Op): string {
    match op
    case Rotate(d) => "r" + Show(d)
    case Crop(w, h, x, y) => "c" + FieldsText([w, h, x, y], "x++", "")
    case ResizeAbsolute(w, h) => "s" + FieldsText([w, h], "x", "")
    case ResizePercent(n) => "s" + Show(n) + "%"
  }

  function PrintAll(ops: seq<Op>): string
    decreases |ops|
  {
    if ops == [] then "" else Print(ops[0]) + PrintAll(ops[1..])
  }

  /** What may follow a command without changing how it is read: text with
      no newline (so `.*` passes over it) that does not start with a digit
      (so the last `[0-9]+` group stops where the command ends). */
  predicate Continues(t: string) {
    (t == [] || !IsDigit(t[0])) && NoNewline(t)
  }

  lemma {:induction false} DigitRunOf(d: string, t: string)
    requires AllDigits(d)
    requires t == [] || !IsDigit(t[0])
    ensures DigitRun(d + t) == |d|
  {
    if d != [] {
      assert (d + t)[1..] == d[1..] + t;
      DigitRunOf(d[1..], t);
    }
  }

  lemma NumberShow(n: nat, t: string)
    requires t == [] || !IsDigit(t[0])
    ensures Number(Show(n) + t) == Some((n, t))
  {
    var s := Show(n) + t;
    DigitRunOf(Show(n), t);
    assert s[..|Show(n)|] == Show(n);
    assert s[|Show(n)|..] == t;
    ValueShow(n);
  }

  lemma {:induction false} RestOfLineWhole(t: string)
    requires NoNewline(t)
    ensures RestOfLine(t) == t
  {
    if t != [] {
      RestOfLineWhole(t[1..]);
    }
  }

  lemma LiteralFront(c: char, t: string)
    ensures Literal(c, [c] + t) == Some(t)
  {
    assert ([c] + t)[1..] == t;
  }

  lemma StepPrintRotate(d: nat, t: string)
    requires Continues(t)
    ensures Step(Print(Rotate(d)) + t) == Some((Rotate(d), t))
  {
    var u := FieldsText([d], "", t);
    assert Print(Rotate(d)) + t == ['r'] + u;
    LiteralFront('r', u);
    FieldsOfText([d], "", t);
    RestOfLineWhole(t);
  }

  /** Digit groups for `ns` separated by `seps`, followed by `t`. */
  function FieldsText(ns: seq<nat>, seps: string, t: string): string
    requires |ns| == |seps| + 1
    decreases |seps|
  {
    if seps == [] then Show(ns[0]) + t
    else Show(ns[0]) + ([seps[0]] + FieldsText(ns[1..], seps[1..], t))
  }

  /** One more group in front: a number and a separator before text whose
      groups are already known. */
  lemma FieldsCons(n: nat, sep: char, u: string, seps: string, ns: seq<nat>, t: string)
    requires !IsDigit(sep)
    requires Fields(u, seps) == Some((ns, t))
    ensures Fields(Show(n) + ([sep] + u), [sep] + seps) == Some(([n] + ns, t))
  {
    NumberShow(n, [sep] + u);
    LiteralFront(sep, u);
    assert ([sep] + seps)[0] == sep && ([sep] + seps)[1..] == seps;
  }

  /** A single group followed by text that does not start with a digit. */
  lemma FieldsOne(n: nat, t: string)
    requires t == [] || !IsDigit(t[0])
    ensures Fields(FieldsText([n], "", t), "") == Some(([n], t))
  {
    assert FieldsText([n], "", t) == Show(n) + t;
    NumberShow(n, t);
  }

  lemma {:induction false} FieldsOfText(ns: seq<nat>, seps: string, t: string)
    requires |ns| == |seps| + 1
    requires forall i :: 0 <= i < |seps| ==> !IsDigit(seps[i])
    requires t == [] || !IsDigit(t[0])
    ensures Fields(FieldsText(ns, seps, t), seps) == Some((ns, t))
    decreases |seps|
  {
    if seps == [] {
      FieldsOne(ns[0], t);
      assert ns == [ns[0]];
    } else {
      var rest := seps[1..];
      assert forall i :: 0 <= i < |rest| ==> rest[i] == seps[i + 1];
      FieldsOfText(ns[1..], rest, t);
      assert FieldsText(ns, seps, t) == Show(ns[0]) + ([seps[0]] + FieldsText(ns[1..], rest, t));
      FieldsCons(ns[0], seps[0], FieldsText(ns[1..], seps[1..], t), seps[1..], ns[1..], t);
      assert [seps[0]] + seps[1..] == seps;
      assert [ns[0]] + ns[1..] == ns;
    }
  }



  lemma {:induction false} FieldsTextAppend(ns: seq<nat>, seps: string, t: string)
    requires |ns| == |seps| + 1
    ensures FieldsText(ns, seps, "") + t == FieldsText(ns, seps, t)
    decreases |seps|
  {
    if seps == [] {
      assert Show(ns[0]) + "" == Show(ns[0]);
    } else {
      FieldsTextAppend(ns[1..], seps[1..], t);
    }
  }

  lemma PrintCropText(w: nat, h: nat, x: nat, y: nat, t: string)
    ensures Print(Crop(w, h, x, y)) + t == ['c'] + FieldsText([w, h, x, y], "x++", t)
  {
    FieldsTextAppend([w, h, x, y], "x++", t);
  }

  lemma StepPrintCrop(w: nat, h: nat, x: nat, y: nat, t: string)
    requires Continues(t)
    ensures Step(Print(Crop(w, h, x, y)) + t) == Some((Crop(w, h, x, y), t))
  {
    var u := FieldsText([w, h, x, y], "x++", t);
    var s0 := ['c'] + u;
    PrintCropText(w, h, x, y, t);
    LiteralFront('c', u);
    FieldsOfText([w, h, x, y], "x++", t);
    RestOfLineWhole(t);
    assert MatchRotate(s0) == None;
    assert MatchCrop(s0) == Some((Crop(w, h, x, y), t));
  }

  lemma PrintResizeAbsoluteText(w: nat, h: nat, t: string)
    ensures Print(ResizeAbsolute(w, h)) + t == ['s'] + FieldsText([w, h], "x", t)
  {
    FieldsTextAppend([w, h], "x", t);
  }

  lemma StepPrintResizeAbsolute(w: nat, h: nat, t: string)
    requires Continues(t)
    ensures Step(Print(ResizeAbsolute(w, h)) + t) == Some((ResizeAbsolute(w, h), t))
  {
    var u := FieldsText([w, h], "x", t);
    var s0 := ['s'] + u;
    PrintResizeAbsoluteText(w, h, t);
    LiteralFront('s', u);
    FieldsOfText([w, h], "x", t);
    RestOfLineWhole(t);
    assert MatchRotate(s0) == None;
    assert MatchCrop(s0) == None;
    assert MatchResizeAbsolute(s0) == Some((ResizeAbsolute(w, h), t));
  }

  lemma StepPrintResizePercent(n: nat, t: string)
    requires Continues(t)
    ensures Step(Print(ResizePercent(n)) + t) == Some((ResizePercent(n), t))
  {
    var u := FieldsText([n], "", ['%'] + t);
    assert u == Show(n) + ("%" + t);
    assert Print(ResizePercent(n)) + t == ['s'] + u;
    LiteralFront('s', u);
    FieldsOfText([n], "", ['%'] + t);
    LiteralFront('%', t);
    RestOfLineWhole(t);
    // the absolute-resize pattern needs an `x` where the `%` stands
    NumberShow(n, ['%'] + t);
    assert Fields(u, "x") == None;
  }

  /** One interpreter step reads back exactly the command that was printed,
      and leaves the text after it untouched. */
  lemma StepPrint(op: Op, t: string)
    requires Continues(t)
    ensures Step(Print(op) + t) == Some((op, t))
  {
    match op
    case Rotate(d) => StepPrintRotate(d, t);
    case Crop(w, h, x, y) => StepPrintCrop(w, h, x, y, t);
    case ResizeAbsolute(w, h) => StepPrintResizeAbsolute(w, h, t);
    case ResizePercent(n) => StepPrintResizePercent(n, t);
  }

  predicate NoNewline(s: string) {
    forall i :: 0 <= i < |s| ==> s[i] != '\n'
  }

  lemma DigitsNoNewline(s: string)
    requires AllDigits(s)
    ensures NoNewline(s)
  {
  }

  lemma {:induction false} FieldsTextNoNewline(ns: seq<nat>, seps: string)
    requires |ns| == |seps| + 1
    requires NoNewline(seps)
    ensures NoNewline(FieldsText(ns, seps, ""))
    decreases |seps|
  {
    DigitsNoNewline(Show(ns[0]));
    if seps != [] {
      FieldsTextNoNewline(ns[1..], seps[1..]);
    }
  }

  lemma PrintNoNewline(op: Op)
    ensures NoNewline(Print(op)) && |Print(op)| > 0
    ensures Print(op)[0] == 'r' || Print(op)[0] == 'c' || Print(op)[0] == 's'
  {
    match op
    case Rotate(d) => DigitsNoNewline(Show(d));
    case Crop(w, h, x, y) => FieldsTextNoNewline([w, h, x, y], "x++");
    case ResizeAbsolute(w, h) => FieldsTextNoNewline([w, h], "x");
    case ResizePercent(n) => DigitsNoNewline(Show(n));
  }

  lemma {:induction false} PrintAllContinues(ops: seq<Op>)
    ensures Continues(PrintAll(ops))
    decreases |ops|
  {
    if ops != [] {
      PrintAllContinues(ops[1..]);
      PrintNoNewline(ops[0]);
      assert NoNewline(PrintAll(ops[1..]));
    }
  }

  /** Any concatenation of well-formed commands parses back to exactly those
      commands. */
  lemma {:induction false} PrintAllParses(ops: seq<Op>)
    ensures Parse(PrintAll(ops)) == ops
    decreases |ops|
  {
    if ops != [] {
      PrintAllContinues(ops[1..]);
      StepPrint(ops[0], PrintAll(ops[1..]));
      PrintAllParses(ops[1..]);
    }
  }

  lemma NoNewlineAppend(a: string, b: string)
    requires NoNewline(a) && NoNewline(b)
    ensures NoNewline(a + b)
  {
    forall i | 0 <= i < |a + b| ensures (a + b)[i] != '\n' {
      if i >= |a| {
        assert (a + b)[i] == b[i - |a|];
      }
    }
  }

  /** Written commands followed by text that may follow a command may
      themselves follow a command. */
  lemma PrintAllThenContinues(ops: seq<Op>, t: string)
    requires Continues(t)
    ensures Continues(PrintAll(ops) + t)
  {
    PrintAllContinues(ops);
    NoNewlineAppend(PrintAll(ops), t);
    if ops != [] {
      PrintNoNewline(ops[0]);
      assert (PrintAll(ops) + t)[0] == Print(ops[0])[0];
    } else {
      assert PrintAll(ops) + t == t;
    }
  }

  /** A written command in front of text that may follow it is read first. */
  lemma ParsePrintCons(op: Op, t: string)
    requires Continues(t)
    ensures Parse(Print(op) + t) == [op] + Parse(t)
  {
    StepPrint(op, t);
    PrintNoNewline(op);
  }

  lemma ParseStops(t: string)
    requires t == [] || Step(t).None?
    ensures Parse(t) == []
  {
  }

  lemma PrintAllFront(ops: seq<Op>, t: string)
    requires ops != []
    ensures PrintAll(ops) + t == Print(ops[0]) + (PrintAll(ops[1..]) + t)
  {
  }

  /** One written command in front of text that parses to `ops[1..]`. */
  lemma ParseDropsTailStep(ops: seq<Op>, t: string)
    requires ops != [] && Continues(t)
    requires Parse(PrintAll(ops[1..]) + t) == ops[1..]
    ensures Parse(PrintAll(ops) + t) == ops
  {
    PrintAllThenContinues(ops[1..], t);
    PrintAllFront(ops, t);
    ParsePrintCons(ops[0], PrintAll(ops[1..]) + t);
    assert [ops[0]] + ops[1..] == ops;
  }

  /** The loop is lossy: after the last well-formed command, text that no
      pattern matches ends the parse and is dropped without an error. */
  lemma {:induction false} ParseDropsTail(ops: seq<Op>, t: string)
    requires Continues(t)
    requires t == [] || Step(t).None?
    ensures Parse(PrintAll(ops) + t) == ops
    decreases |ops|
  {
    if ops == [] {
      ParseStops(t);
      assert PrintAll(ops) + t == t;
    } else {
      ParseDropsTail(ops[1..], t);
      ParseDropsTailStep(ops, t);
    }
  }



  /** No pattern matches text that does not start with `r`, `c` or `s`. */
  lemma NoStep(t: string)
    requires t != [] && t[0] != 'r' && t[0] != 'c' && t[0] != 's'
    ensures Step(t).None?
  {
  }

  /** Text that does not start with a command letter or a digit, followed
      by written commands, ends the parse where it stands. */
  lemma JunkStops(junk: string, global: seq<Op>)
    requires junk != [] && NoNewline(junk) && !IsDigit(junk[0])
    requires junk[0] != 'r' && junk[0] != 'c' && junk[0] != 's'
    ensures Continues(junk + PrintAll(global)) && Step(junk + PrintAll(global)).None?
  {
    PrintAllContinues(global);
    NoNewlineAppend(junk, PrintAll(global));
    NoStep(junk + PrintAll(global));
  }

  /** A side string with trailing text that is not a command silently
      swallows every global command appended to it. */
  lemma JunkDropsGlobal(side: seq<Op>, junk: string, global: seq<Op>)
    requires junk != [] && NoNewline(junk) && !IsDigit(junk[0])
    requires junk[0] != 'r' && junk[0] != 'c' && junk[0] != 's'
    ensures Parse(PrintAll(side) + junk + PrintAll(global)) == side
  {
    var t := junk + PrintAll(global);
    assert PrintAll(side) + junk + PrintAll(global) == PrintAll(side) + t;
    JunkStops(junk, global);
    ParseDropsTail(side, t);
  }

  /** The renderer runs the side-specific commands before the global ones:
      when both strings are well formed, the concatenated string applies the
      side commands first and the global commands to their result. */
  lemma SideThenGlobal(rotate: Rotation, side: seq<Op>, global: seq<Op>, img: Image)
    ensures Parse(PrintAll(side) + PrintAll(global)) == side + global
    ensures ApplyAll(rotate, Parse(PrintAll(side) + PrintAll(global)), img)
         == ApplyAll(rotate, global, ApplyAll(rotate, side, img))
  {
    PrintAllConcat(side, global);
    PrintAllParses(side + global);
    ApplyAllAppend(rotate, side, global, img);
  }

  lemma {:induction false} PrintAllConcat(a: seq<Op>, b: seq<Op>)
    ensures PrintAll(a + b) == PrintAll(a) + PrintAll(b)
    decreases |a|
  {
    if a != [] {
      assert (a + b)[1..] == a[1..] + b;
      PrintAllConcat(a[1..], b);
    } else {
      assert a + b == b;
    }
  }

  lemma ShowExamples()
    ensures Show(10) == "10" && Show(20) == "20" && Show(50) == "50" && Show(90) == "90"
    ensures Show(100) == "100" && Show(200) == "200"
  {
  }

  lemma PrintRotateExample()
    ensures Print(Rotate(90)) == "r90"
  {
    ShowExamples();
  }

  lemma CropFieldsExample1()
    ensures FieldsText([20], "", "") == "20"
  {
    ShowExamples();
  }

  lemma CropFieldsExample2()
    ensures FieldsText([10, 20], "+", "") == "10+20"
  {
    ShowExamples();
    assert [10, 20][1..] == [20];
    CropFieldsExample1();
  }

  lemma CropFieldsExample3()
    ensures FieldsText([50, 10, 20], "++", "") == "50+10+20"
  {
    ShowExamples();
    assert [50, 10, 20][1..] == [10, 20];
    CropFieldsExample2();
  }

  lemma CropFieldsExample4()
    ensures FieldsText([100, 50, 10, 20], "x++", "") == "100x50+10+20"
  {
    ShowExamples();
    assert [100, 50, 10, 20][1..] == [50, 10, 20];
    CropFieldsExample3();
  }

  lemma PrintCropExample()
    ensures Print(Crop(100, 50, 10, 20)) == "c100x50+10+20"
  {
    CropFieldsExample4();
  }

  lemma ResizeFieldsExample1()
    ensures FieldsText([100], "", "") == "100"
  {
    ShowExamples();
  }

  lemma ResizeFieldsExample2()
    ensures FieldsText([200, 100], "x", "") == "200x100"
  {
    ShowExamples();
    assert [200, 100][1..] == [100];
    ResizeFieldsExample1();
  }

  lemma PrintResizeAbsoluteExample()
    ensures Print(ResizeAbsolute(200, 100)) == "s200x100"
  {
    ResizeFieldsExample2();
  }

  lemma PrintAllSingle(op: Op)
    ensures PrintAll([op]) == Print(op)
  {
    assert [op][1..] == [];
    assert Print(op) + "" == Print(op);
  }

  lemma PrintThree(r: Op, c: Op, z: Op, a: string, b: string, d: string)
    requires Print(r) == a && Print(c) == b && Print(z) == d
    ensures PrintAll([r, c, z]) == a + b + d
  {
    assert [r, c, z][1..] == [c, z];
    assert [c, z][1..] == [z];
    assert [z][1..] == [];
    assert PrintAll([z]) == d + "" == d;
    assert PrintAll([c, z]) == b + d;
    assert a + (b + d) == a + b + d;
  }

  /** Three printed commands, written one after another, read back as
      those three commands. */
  lemma ParseThree(r: Op, c: Op, z: Op, a: string, b: string, d: string)
    requires Print(r) == a && Print(c) == b && Print(z) == d
    ensures Parse(a + b + d) == [r, c, z]
  {
    PrintThree(r, c, z, a, b, d);
    PrintAllParses([r, c, z]);
  }

  lemma TailText()
    ensures "r90" + "zzz" == "r90zzz"
  {
  }

  /** Trailing text that is not a command is dropped: `r90zzz` reads as a
      rotation by 90 alone. */
  lemma DroppedTailExample()
    ensures Parse("r90zzz") == [Rotate(90)]
  {
    PrintRotateExample();
    PrintAllSingle(Rotate(90));
    NoStep("zzz");
    ParseDropsTail([Rotate(90)], "zzz");
    TailText();
  }

  lemma ExampleText()
    ensures "r90" + "c100x50+10+20" + "s200x100" == "r90c100x50+10+20s200x100"
  {
  }

  /** The worked example of the mini-language. */
  lemma ParseExample()
    ensures Parse("r90c100x50+10+20s200x100")
         == [Rotate(90), Crop(100, 50, 10, 20), ResizeAbsolute(200, 100)]
  {
    PrintRotateExample();
    PrintCropExample();
    PrintResizeAbsoluteExample();
    ParseThree(Rotate(90), Crop(100, 50, 10, 20), ResizeAbsolute(200, 100), "r90", "c100x50+10+20", "s200x100");
    ExampleText();
  }
}
