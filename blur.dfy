/**
 * The `Blur` enum of JavaFX-Blur: the table of accent states, the loader's
 * choice between the jar and the development layout, and `applyBlur`, which
 * renames a stage to a marker title so that the native side can find its
 * window, calls the native function, and puts the old title back.
 */
module JavaFxBlur {
  import opened Decimal
  import opened JavaStrings
  import Wrappers

  // ---------------------------------------------------------------------
  // The effect table

  /**
   * The three blur effects (NONE, BLUR_BEHIND and ACRYLIC); each carries the
   * accent state the compositor expects.
   */
  datatype Blur = NoEffect | BlurBehind | Acrylic

  function AccentState(blur: Blur): (code: int)
    ensures FromAccentState(code) == Wrappers.Some(blur)
  {
    match blur
    case NoEffect => 0
    case BlurBehind => 3
    case Acrylic => 4
  }

  /** The effect a compositor accent state stands for, if any. */
  function FromAccentState(code: int): Wrappers.Option<Blur> {
    if code == 0 then Wrappers.Some(NoEffect)
    else if code == 3 then Wrappers.Some(BlurBehind)
    else if code == 4 then Wrappers.Some(Acrylic)
    else Wrappers.None
  }

  /** The fixed codes: NONE is 0, BLUR_BEHIND is 3, ACRYLIC is 4. */
  lemma AccentStateTable()
    ensures AccentState(NoEffect) == 0
    ensures AccentState(BlurBehind) == 3
    ensures AccentState(Acrylic) == 4
  {
  }

  /** No two effects share a code. */
  lemma AccentStatesDistinct(a: Blur, b: Blur)
    ensures AccentState(a) == AccentState(b) <==> a == b
  {
  }

  /** The code identifies the effect: decoding a code gives exactly the effect that has it. */
  lemma AccentStateRoundTrip(code: int, blur: Blur)
    ensures FromAccentState(AccentState(blur)) == Wrappers.Some(blur)
    ensures FromAccentState(code) == Wrappers.Some(blur) <==> AccentState(blur) == code
  {
  }

  // ---------------------------------------------------------------------
  // The marker title

  const BlurTargetPrefix: string := "_JFX"

  /** The title given to the stage while the native side looks for it. */
  function MarkerTitle(millis: nat): (m: string)
    ensures StartsWith(m, BlurTargetPrefix) && 5 <= |m| <= 7 && AllDigits(m[4..])
  {
    var suffix := NatToDecimal(millis % 1000);
    DecimalLengthBound(millis % 1000, 3);
    assert Pow10(3) == 1000;
    assert (BlurTargetPrefix + suffix)[4..] == suffix;
    BlurTargetPrefix + suffix
  }

  /**
   * The marker is the prefix followed by one to three decimal digits, with no
   * leading zero, whose value is the wall clock's milliseconds modulo 1000.
   */
  lemma MarkerTitleFormat(millis: nat)
    ensures var m := MarkerTitle(millis);
      && m == BlurTargetPrefix + m[4..]
      && 5 <= |m| <= 7
      && AllDigits(m[4..])
      && (|m| > 5 ==> m[4] != '0')
      && DecimalValue(m[4..]) == millis % 1000 < 1000
  {
    var m := MarkerTitle(millis);
    assert m[4..] == NatToDecimal(millis % 1000);
    DecimalRoundTrip(millis % 1000);
    DecimalLengthBound(millis % 1000, 3);
    assert Pow10(3) == 1000;
  }

  /** Two clock readings give the same marker exactly when they agree modulo 1000. */
  lemma MarkerTitleCollision(a: nat, b: nat)
    ensures MarkerTitle(a) == MarkerTitle(b) <==> a % 1000 == b % 1000
  {
    if MarkerTitle(a) == MarkerTitle(b) {
      assert MarkerTitle(a)[4..] == NatToDecimal(a % 1000);
      assert MarkerTitle(b)[4..] == NatToDecimal(b % 1000);
      NatToDecimalInjective(a % 1000, b % 1000);
    }
  }

  // ---------------------------------------------------------------------
  // Loading the native library

  /** Whether the class was loaded from a jar: its resource URL is "jar:" followed by anything. */
  function IsJar(classUrl: string): (r: bool)
    ensures r <==> exists rest :: classUrl == "jar:" + rest
  {
    StartsWith(classUrl, "jar:")
  }

  /**
   * The file path the development layout loads: every "file:/" removed, then
   * every "%20" turned into a space. No encoded space is left behind.
   */
  function DevLibraryPath(dllUrl: string): (path: string)
    ensures !Contains(path, "%20")
    ensures |path| <= |dllUrl|
  {
    var withoutScheme := ReplaceAll(dllUrl, "file:/", "");
    ReplaceAllRemovesEveryOccurrence(withoutScheme, "%20", " ");
    ReplaceAll(withoutScheme, "%20", " ")
  }

  /**
   * For a URL made of the "file:/" scheme and a path that does not repeat it,
   * the development path is that path with its encoded spaces decoded.
   */
  lemma DevLibraryPathOfFileUrl(path: string)
    requires !Contains(path, "file:/")
    ensures DevLibraryPath("file:/" + path) == ReplaceAll(path, "%20", " ")
    ensures !Contains(path, "%20") ==> DevLibraryPath("file:/" + path) == path
  {
    var url := "file:/" + path;
    assert url[..6] == "file:/";
    assert url[6..] == path;
    ReplaceAllWithoutOccurrence(path, "file:/", "");
    assert ReplaceAll(url, "file:/", "") == path;
    if !Contains(path, "%20") {
      ReplaceAllWithoutOccurrence(path, "%20", " ");
    }
  }

  /**
   * The scheme removal is one left-to-right pass, not a fixpoint: removing
   * one "file:/" can join its neighbours into a new one, which stays.
   */
  lemma SchemeRemovalIsSinglePass()
    ensures Contains(ReplaceAll("filfile:/e:/", "file:/", ""), "file:/")
  {
    var url := "filfile:/e:/";
    assert url == "fil" + "file:/e:/";
    forall j | 0 <= j < 3 ensures !OccursAt(url, "file:/", j) {
      assert url[j + 3] != "file:/"[3];
    }
    ReplaceAllCopiesClearPrefix("fil", "file:/e:/", "file:/", "");
    assert ("file:/e:/")[6..] == "e:/";
    assert ReplaceAll("e:/", "file:/", "") == "e:/";
    assert ReplaceAll(url, "file:/", "") == "file:/";
    assert OccursAt("file:/", "file:/", 0);
  }

  /** What `loadBlurLibrary` goes on to do. */
  datatype LoadPlan =
    | ExtractFromJar(resource: string)  // NativeUtils.loadLibraryFromJar
    | LoadFile(path: string)            // System.load on the file at that path
    | ResourceMissing                   // getResource gave null; the exception is logged

  const DllResource: string := "/javafxblur.dll"

  /**
   * The loader's decision, given the URL of the `Blur` class resource and the
   * URL of the DLL resource (absent when the class loader has no such resource).
   */
  function LoadBlurLibrary(classUrl: string, dllUrl: Wrappers.Option<string>): (plan: LoadPlan)
    ensures plan.ExtractFromJar? <==> IsJar(classUrl)
    ensures plan.ExtractFromJar? ==> plan.resource == DllResource
    ensures plan.ResourceMissing? <==> !IsJar(classUrl) && dllUrl.None?
    ensures plan.LoadFile? ==>
      dllUrl.Some? && plan.path == DevLibraryPath(dllUrl.value) && !Contains(plan.path, "%20")
  {
    if IsJar(classUrl) then ExtractFromJar(DllResource)
    else match dllUrl
      case None => ResourceMissing
      case Some(url) => LoadFile(DevLibraryPath(url))
  }

  // ---------------------------------------------------------------------
  // The applyBlur protocol

  /** How the native call ends: normally, or with an UnsatisfiedLinkError. */
  datatype Outcome = Ok | LinkError

  /** What the native binding was given: its target, its accent state, the window it concerns and that window's title at that moment. */
  datatype Received = Received(target: string, accentState: int, window: Stage, titleSeen: string)

  /** One observable step of `applyBlur`, in the order it happens. */
  datatype Event =
    | Warned                 // the hidden-stage warning is logged
    | TitleSet(title: string)
    | NativeCalled(call: Received, outcome: Outcome)
    | LinkErrorLogged        // the caught UnsatisfiedLinkError is logged

  /** The part of a JavaFX stage that `applyBlur` touches. */
  class Stage {
    var title: string
    var showing: bool
    /** Every title ever passed to `setTitle`, oldest first. */
    ghost var titleWrites: seq<string>

    constructor (title: string, showing: bool)
      ensures this.title == title && this.showing == showing && titleWrites == []
    {
      this.title := title;
      this.showing := showing;
      titleWrites := [];
    }

    method SetTitle(t: string)
      modifies this`title, this`titleWrites
      ensures title == t && titleWrites == old(titleWrites) + [t]
    {
      title := t;
      titleWrites := titleWrites + [t];
    }

    method Show()
      modifies this`showing
      ensures showing
    {
      showing := true;
    }
  }

  /**
   * The native binding. Whether its entry point is linked decides the outcome
   * of a call; what it does to the window is not modelled, only what it is
   * given and the title the window has at that moment.
   */
  class NativeBlur {
    var linked: bool
    /** Every call received, oldest first. */
    ghost var calls: seq<Received>

    constructor (linked: bool)
      ensures this.linked == linked && calls == []
    {
      this.linked := linked;
      calls := [];
    }

    method ExtApplyBlur(target: string, accentState: int, ghost window: Stage) returns (outcome: Outcome)
      modifies this`calls
      ensures outcome == (if linked then Ok else LinkError)
      ensures calls == old(calls) + [Received(target, accentState, window, window.title)]
    {
      outcome := if linked then Ok else LinkError;
      calls := calls + [Received(target, accentState, window, window.title)];
    }
  }

  /** The steps `applyBlur` takes on the stage `window`, given its state. */
  function ProtocolTrace(window: Stage, showing: bool, title: string, blur: Blur, millis: nat, linked: bool): (trace: seq<Event>)
    ensures 3 <= |trace| <= 5 && trace[|trace| - 1] == TitleSet(title)
  {
    var marker := MarkerTitle(millis);
    var outcome := if linked then Ok else LinkError;
    (if showing then [] else [Warned])
    + [TitleSet(marker), NativeCalled(Received(marker, AccentState(blur), window, marker), outcome)]
    + (if linked then [] else [LinkErrorLogged])
    + [TitleSet(title)]
  }

  /** The titles a trace writes, in order. */
  function TitlesWritten(trace: seq<Event>): seq<string> {
    if trace == [] then []
    else (if trace[0].TitleSet? then [trace[0].title] else []) + TitlesWritten(trace[1..])
  }

  /** The native calls a trace makes, in order. */
  function NativeCalls(trace: seq<Event>): seq<Event> {
    if trace == [] then []
    else (if trace[0].NativeCalled? then [trace[0]] else []) + NativeCalls(trace[1..])
  }

  /** The stage's title after the trace, starting from `initial`: the last title written. */
  function TitleAfter(initial: string, trace: seq<Event>): string {
    var written := TitlesWritten(trace);
    if written == [] then initial else written[|written| - 1]
  }

  lemma {:induction false} TitlesWrittenAppend(a: seq<Event>, b: seq<Event>)
    ensures TitlesWritten(a + b) == TitlesWritten(a) + TitlesWritten(b)
  {
    if a == [] {
      assert a + b == b;
    } else {
      var head: seq<string> := if a[0].TitleSet? then [a[0].title] else [];
      assert (a + b)[0] == a[0];
      assert (a + b)[1..] == a[1..] + b;
      assert TitlesWritten(a) == head + TitlesWritten(a[1..]);
      assert TitlesWritten(a + b) == head + TitlesWritten(a[1..] + b);
      TitlesWrittenAppend(a[1..], b);
    }
  }

  lemma {:induction false} NativeCallsAppend(a: seq<Event>, b: seq<Event>)
    ensures NativeCalls(a + b) == NativeCalls(a) + NativeCalls(b)
  {
    if a == [] {
      assert a + b == b;
    } else {
      var head: seq<Event> := if a[0].NativeCalled? then [a[0]] else [];
      assert (a + b)[0] == a[0];
      assert (a + b)[1..] == a[1..] + b;
      assert NativeCalls(a) == head + NativeCalls(a[1..]);
      assert NativeCalls(a + b) == head + NativeCalls(a[1..] + b);
      NativeCallsAppend(a[1..], b);
    }
  }

  /** `title` is written twice: first the marker, then the original title. */
  lemma ProtocolWritesTitleTwice(window: Stage, showing: bool, title: string, blur: Blur, millis: nat, linked: bool)
    ensures TitlesWritten(ProtocolTrace(window, showing, title, blur, millis, linked)) == [MarkerTitle(millis), title]
  {
    var marker := MarkerTitle(millis);
    var outcome := if linked then Ok else LinkError;
    var warn: seq<Event> := if showing then [] else [Warned];
    var swap: seq<Event> := [TitleSet(marker), NativeCalled(Received(marker, AccentState(blur), window, marker), outcome)];
    var error: seq<Event> := if linked then [] else [LinkErrorLogged];
    assert TitlesWritten(warn) == [] && TitlesWritten(error) == [];
    assert TitlesWritten(swap) == [marker] by {
      assert swap[1..][1..] == [];
    }
    assert TitlesWritten([TitleSet(title)]) == [title] by {
      assert [TitleSet(title)][1..] == [];
    }
    assert ProtocolTrace(window, showing, title, blur, millis, linked) == warn + swap + error + [TitleSet(title)];
    TitlesWrittenAppend(warn, swap);
    assert TitlesWritten(warn + swap) == [marker];
    TitlesWrittenAppend(warn + swap, error);
    assert TitlesWritten(warn + swap + error) == [marker];
    TitlesWrittenAppend(warn + swap + error, [TitleSet(title)]);
  }

  /**
   * The title the stage ends with is the one it started with, whether the
   * native call returned normally or failed to link.
   */
  lemma ProtocolRestoresTitle(window: Stage, showing: bool, title: string, blur: Blur, millis: nat, linked: bool)
    ensures TitleAfter(title, ProtocolTrace(window, showing, title, blur, millis, linked)) == title
  {
    ProtocolWritesTitleTwice(window, showing, title, blur, millis, linked);
  }

  /**
   * The native function is called once, with the marker and the effect's
   * accent state, and links exactly when the binding is linked.
   */
  lemma ProtocolCallsNativeOnce(window: Stage, showing: bool, title: string, blur: Blur, millis: nat, linked: bool)
    ensures NativeCalls(ProtocolTrace(window, showing, title, blur, millis, linked)) ==
      [NativeCalled(Received(MarkerTitle(millis), AccentState(blur), window, MarkerTitle(millis)), if linked then Ok else LinkError)]
  {
    var marker := MarkerTitle(millis);
    var outcome := if linked then Ok else LinkError;
    var warn: seq<Event> := if showing then [] else [Warned];
    var swap: seq<Event> := [TitleSet(marker), NativeCalled(Received(marker, AccentState(blur), window, marker), outcome)];
    var error: seq<Event> := if linked then [] else [LinkErrorLogged];
    assert NativeCalls(warn) == [] && NativeCalls(error) == [];
    assert NativeCalls(swap) == [swap[1]] by {
      assert swap[1..][1..] == [];
    }
    assert NativeCalls([TitleSet(title)]) == [] by {
      assert [TitleSet(title)][1..] == [];
    }
    assert ProtocolTrace(window, showing, title, blur, millis, linked) == warn + swap + error + [TitleSet(title)];
    NativeCallsAppend(warn, swap);
    assert NativeCalls(warn + swap) == [swap[1]];
    NativeCallsAppend(warn + swap, error);
    assert NativeCalls(warn + swap + error) == [swap[1]];
    NativeCallsAppend(warn + swap + error, [TitleSet(title)]);
  }

  /**
   * At the native call the stage's title is the marker, which is also the
   * target the call receives; the accent state is the chosen effect's.
   */
  lemma ProtocolTitleDuringNativeCall(window: Stage, showing: bool, title: string, blur: Blur, millis: nat, linked: bool, k: nat)
    requires var trace := ProtocolTrace(window, showing, title, blur, millis, linked);
      k < |trace| && trace[k].NativeCalled?
    ensures var trace := ProtocolTrace(window, showing, title, blur, millis, linked);
      && trace[k].call.target == MarkerTitle(millis)
      && trace[k].call.accentState == AccentState(blur)
      && trace[k].call.window == window
      && trace[k].call.titleSeen == trace[k].call.target
      && TitleAfter(title, trace[..k]) == trace[k].call.target
  {
    var trace := ProtocolTrace(window, showing, title, blur, millis, linked);
    var marker := MarkerTitle(millis);
    var warn: seq<Event> := if showing then [] else [Warned];
    assert k == |warn| + 1;
    assert trace[..k] == warn + [TitleSet(marker)];
    TitlesWrittenAppend(warn, [TitleSet(marker)]);
  }

  /** The warning is logged exactly when the stage is hidden, and before anything else. */
  lemma ProtocolWarnsIffHidden(window: Stage, showing: bool, title: string, blur: Blur, millis: nat, linked: bool)
    ensures var trace := ProtocolTrace(window, showing, title, blur, millis, linked);
      (Warned in trace <==> !showing) && (!showing ==> trace[0] == Warned)
  {
  }

  /** The link error is logged exactly when the binding is not linked. */
  lemma ProtocolLogsIffUnlinked(window: Stage, showing: bool, title: string, blur: Blur, millis: nat, linked: bool)
    ensures LinkErrorLogged in ProtocolTrace(window, showing, title, blur, millis, linked) <==> !linked
  {
  }

  /**
   * `applyBlur`: warn about a hidden stage, save the title, set the marker,
   * call the native function (its link error is caught and logged), restore
   * the title. Only the title changes, and it ends as it began.
   */
  method ApplyBlur(stage: Stage, blur: Blur, millis: nat, native: NativeBlur) returns (ghost trace: seq<Event>)
    modifies stage`title, stage`titleWrites, native`calls
    ensures trace == ProtocolTrace(stage, stage.showing, old(stage.title), blur, millis, native.linked)
    ensures native.calls == old(native.calls) + [Received(MarkerTitle(millis), AccentState(blur), stage, MarkerTitle(millis))]
    ensures stage.title == old(stage.title) && stage.showing == old(stage.showing)
    ensures stage.titleWrites == old(stage.titleWrites) + [MarkerTitle(millis), old(stage.title)]
  {
    trace := [];
    if !stage.showing {
      trace := trace + [Warned];
    }
    var stageTitle := stage.title;
    var targetTitle := BlurTargetPrefix + NatToDecimal(millis % 1000);
    stage.SetTitle(targetTitle);
    trace := trace + [TitleSet(targetTitle)];
    var outcome := native.ExtApplyBlur(targetTitle, AccentState(blur), stage);
    trace := trace + [NativeCalled(native.calls[|native.calls| - 1], outcome)];
    if outcome == LinkError {
      trace := trace + [LinkErrorLogged];
    }
    stage.SetTitle(stageTitle);
    trace := trace + [TitleSet(stageTitle)];
  }

  /**
   * The demo application's start-up: the stage is titled "JavaFX", shown,
   * and given the acrylic effect; it keeps its title.
   */
  method StartDemoStage(millis: nat, native: NativeBlur) returns (stage: Stage, ghost trace: seq<Event>)
    modifies native`calls
    ensures fresh(stage)
    ensures native.calls == old(native.calls) + [Received(MarkerTitle(millis), 4, stage, MarkerTitle(millis))]
    ensures stage.title == "JavaFX" && stage.showing
    ensures stage.titleWrites == ["JavaFX", MarkerTitle(millis), "JavaFX"]
    ensures NativeCalls(trace) == [NativeCalled(Received(MarkerTitle(millis), 4, stage, MarkerTitle(millis)), if native.linked then Ok else LinkError)]
  {
    stage := new Stage("", false);
    stage.SetTitle("JavaFX");
    stage.Show();
    trace := ApplyBlur(stage, Acrylic, millis, native);
    ProtocolCallsNativeOnce(stage, true, "JavaFX", Acrylic, millis, native.linked);
  }

  /**
   * The demo scenario on the protocol itself: a shown stage titled "JavaFX"
   * and the acrylic effect. The native call gets code 4 and a target of
   * "_JFX" and one to three digits; "JavaFX" is the title afterwards.
   */
  lemma DemoScenario(window: Stage, millis: nat, linked: bool)
    ensures var trace := ProtocolTrace(window, true, "JavaFX", Acrylic, millis, linked);
      && |NativeCalls(trace)| == 1
      && NativeCalls(trace)[0].NativeCalled?
      && NativeCalls(trace)[0].call.accentState == 4
      && StartsWith(NativeCalls(trace)[0].call.target, "_JFX")
      && 5 <= |NativeCalls(trace)[0].call.target| <= 7
      && AllDigits(NativeCalls(trace)[0].call.target[4..])
      && TitleAfter("JavaFX", trace) == "JavaFX"
  {
    ProtocolCallsNativeOnce(window, true, "JavaFX", Acrylic, millis, linked);
    ProtocolRestoresTitle(window, true, "JavaFX", Acrylic, millis, linked);
    MarkerTitleFormat(millis);
  }
}
