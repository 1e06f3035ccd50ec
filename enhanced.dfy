/**
 * The page helper served from `static/js/enhanced-features.js`: quiz and progress forms
 * queued while the browser is offline and replayed when it comes back, the voice-command
 * switch and its command words, swipe gestures, the font-size buttons and the preloading of
 * next-section links.
 */
module Enhanced {
  import opened Wrappers
  import opened Text

  /** One queued form submission: where it was posted, its fields, when it was queued. */
  datatype OfflineAction = OfflineAction(url: string, data: map<string, string>, timestamp: string)

  /** What a recognised voice command does. */
  datatype VoiceAction = ContinueLearning | FocusSearch | GoToDashboard | ShowHelp | NoAction

  /**
   * `processVoiceCommand`: the first group of words the transcript contains decides, in the
   * order next/continue, search, home/dashboard, help.
   */
  function ProcessVoiceCommand(command: string): (a: VoiceAction)
    ensures a == ContinueLearning <==> Contains(command, "next") || Contains(command, "continue")
    ensures a == FocusSearch <==>
      !Contains(command, "next") && !Contains(command, "continue") && Contains(command, "search")
    ensures a == GoToDashboard <==>
      && !Contains(command, "next") && !Contains(command, "continue") && !Contains(command, "search")
      && (Contains(command, "home") || Contains(command, "dashboard"))
    ensures a == ShowHelp <==>
      && !Contains(command, "next") && !Contains(command, "continue") && !Contains(command, "search")
      && !Contains(command, "home") && !Contains(command, "dashboard") && Contains(command, "help")
  {
    if Contains(command, "next") || Contains(command, "continue") then ContinueLearning
    else if Contains(command, "search") then FocusSearch
    else if Contains(command, "home") || Contains(command, "dashboard") then GoToDashboard
    else if Contains(command, "help") then ShowHelp
    else NoAction
  }

  /** "next" anywhere in what was said wins over every other command word around it. */
  lemma NextWins(before: string, after: string)
    ensures ProcessVoiceCommand(before + "next" + after) == ContinueLearning
    ensures ProcessVoiceCommand(before + "continue" + after) == ContinueLearning
  {
    ContainsInside(before, "next", after);
    ContainsInside(before, "continue", after);
  }

  /** Saying just "help" shows the help. */
  lemma HelpShowsHelp()
    ensures ProcessVoiceCommand("help") == ShowHelp
  {
    ShorterContainsNothing("help", "continue");
    ShorterContainsNothing("help", "search");
    ShorterContainsNothing("help", "dashboard");
    ShorterContainsNothing("elp", "next");
    ShorterContainsNothing("elp", "home");
    assert "help"[1..] == "elp";
    assert "help"[..4] == "help";
  }

  /** A swipe's effect: back on a swipe to the right, the next section on a swipe to the left. */
  datatype Swipe = SwipeBack | SwipeForward | NoSwipe

  function Abs(x: real): real { if x < 0.0 then -x else x }

  /** The touch-end handler: a swipe counts when it is mostly horizontal and longer than 100 pixels. */
  function ClassifySwipe(dx: real, dy: real): (s: Swipe)
    ensures s != NoSwipe <==> Abs(dx) > Abs(dy) && Abs(dx) > 100.0
    ensures s == SwipeBack <==> s != NoSwipe && dx > 0.0
  {
    if Abs(dx) > Abs(dy) && Abs(dx) > 100.0 then (if dx > 0.0 then SwipeBack else SwipeForward)
    else NoSwipe
  }

  /** Left and right are symmetric: the mirrored gesture has the opposite effect. */
  lemma SwipeMirror(dx: real, dy: real)
    ensures ClassifySwipe(dx, dy) == SwipeBack <==> ClassifySwipe(-dx, dy) == SwipeForward
    ensures ClassifySwipe(dx, dy) == NoSwipe <==> ClassifySwipe(-dx, dy) == NoSwipe
  {
  }

  /** The helper's state, with the two local-storage entries it writes. */
  class EnhancedLms {
    var isOnline: bool
    var offlineQueue: seq<OfflineAction>
    /** Local storage `offlineQueue`; absent when the entry does not exist. */
    var storedQueue: Option<seq<OfflineAction>>
    var voiceActive: bool
    var preloadedUrls: set<string>
    /** The root element's font size in pixels. */
    var fontSize: real
    /** Local storage `fontSize`. */
    var storedFontSize: Option<real>

    /** The in-memory queue is exactly what local storage holds. */
    ghost predicate Persisted()
      reads this
    {
      storedQueue.GetOr([]) == offlineQueue
    }

    /**
     * A page load: the in-memory queue starts empty whatever local storage holds, so the
     * stored actions of an earlier page are in step with it only when there are none.
     */
    constructor (online: bool, stored: Option<seq<OfflineAction>>, rootFontSize: real, storedFont: Option<real>)
      ensures isOnline == online && offlineQueue == [] && storedQueue == stored
      ensures !voiceActive && preloadedUrls == {}
      ensures fontSize == rootFontSize && storedFontSize == storedFont
      ensures Persisted() <==> stored.GetOr([]) == []
    {
      isOnline, offlineQueue, storedQueue := online, [], stored;
      voiceActive, preloadedUrls := false, {};
      fontSize, storedFontSize := rootFontSize, storedFont;
    }

    /**
     * `storeOfflineAction`: the action joins the in-memory queue, and the whole in-memory
     * queue replaces what local storage held.
     */
    method StoreOfflineAction(action: OfflineAction)
      modifies this
      ensures offlineQueue == old(offlineQueue) + [action] && storedQueue == Some(offlineQueue)
      ensures Persisted()
      ensures isOnline == old(isOnline) && voiceActive == old(voiceActive) && preloadedUrls == old(preloadedUrls)
      ensures fontSize == old(fontSize) && storedFontSize == old(storedFontSize)
    {
      offlineQueue := offlineQueue + [action];
      storedQueue := Some(offlineQueue);
    }

    /** The submit listener: a quiz or progress form submitted offline is queued instead of posted. */
    method OnSubmit(queueableForm: bool, action: OfflineAction) returns (intercepted: bool)
      modifies this
      ensures intercepted <==> !old(isOnline) && queueableForm
      ensures intercepted ==> offlineQueue == old(offlineQueue) + [action] && storedQueue == Some(offlineQueue)
      ensures !intercepted ==> offlineQueue == old(offlineQueue) && storedQueue == old(storedQueue)
      ensures old(Persisted()) ==> Persisted()
      ensures isOnline == old(isOnline) && voiceActive == old(voiceActive) && preloadedUrls == old(preloadedUrls)
      ensures fontSize == old(fontSize) && storedFontSize == old(storedFontSize)
    {
      intercepted := !isOnline && queueableForm;
      if intercepted {
        StoreOfflineAction(action);
      }
    }

    /**
     * `syncOfflineData`: every stored action is posted once, in order, whether or not its
     * request fails; afterwards both queues are empty.  When the queues were in step, that is
     * exactly what was queued on this page.
     */
    method SyncOfflineData() returns (attempted: seq<OfflineAction>)
      modifies this
      ensures attempted == old(storedQueue).GetOr([])
      ensures old(Persisted()) ==> attempted == old(offlineQueue)
      ensures storedQueue == None && offlineQueue == [] && Persisted()
      ensures isOnline == old(isOnline) && voiceActive == old(voiceActive) && preloadedUrls == old(preloadedUrls)
      ensures fontSize == old(fontSize) && storedFontSize == old(storedFontSize)
    {
      var queue := storedQueue.GetOr([]);
      attempted := [];
      var i := 0;
      while i < |queue|
        invariant 0 <= i <= |queue| && attempted == queue[..i]
      {
        attempted := attempted + [queue[i]];
        i := i + 1;
      }
      assert queue[..|queue|] == queue;
      storedQueue := None;
      offlineQueue := [];
    }

    /** The `online` listener: the flag is raised and the queue replayed. */
    method GoOnline() returns (attempted: seq<OfflineAction>)
      modifies this
      ensures isOnline
      ensures attempted == old(storedQueue).GetOr([])
      ensures old(Persisted()) ==> attempted == old(offlineQueue)
      ensures storedQueue == None && offlineQueue == []
      ensures voiceActive == old(voiceActive) && preloadedUrls == old(preloadedUrls)
      ensures fontSize == old(fontSize) && storedFontSize == old(storedFontSize)
    {
      isOnline := true;
      attempted := SyncOfflineData();
    }

    /** The `offline` listener. */
    method GoOffline()
      modifies this
      ensures !isOnline
      ensures offlineQueue == old(offlineQueue) && storedQueue == old(storedQueue)
      ensures voiceActive == old(voiceActive) && preloadedUrls == old(preloadedUrls)
      ensures fontSize == old(fontSize) && storedFontSize == old(storedFontSize)
    {
      isOnline := false;
    }

    /** `toggleVoiceCommands`: listening stops when active and starts otherwise. */
    method ToggleVoiceCommands()
      modifies this
      ensures voiceActive == !old(voiceActive)
      ensures isOnline == old(isOnline) && offlineQueue == old(offlineQueue) && storedQueue == old(storedQueue)
      ensures preloadedUrls == old(preloadedUrls) && fontSize == old(fontSize) && storedFontSize == old(storedFontSize)
    {
      voiceActive := !voiceActive;
    }

    /**
     * `adjustFontSize`: one step is two pixels; the new size is applied and remembered only
     * when it lies within 12 to 24 pixels, so a size in that range never leaves it.
     */
    method AdjustFontSize(direction: int)
      modifies this
      ensures var newSize := old(fontSize) + 2.0 * direction as real;
        if 12.0 <= newSize <= 24.0 then fontSize == newSize && storedFontSize == Some(newSize)
        else fontSize == old(fontSize) && storedFontSize == old(storedFontSize)
      ensures 12.0 <= old(fontSize) <= 24.0 ==> 12.0 <= fontSize <= 24.0
      ensures isOnline == old(isOnline) && offlineQueue == old(offlineQueue) && storedQueue == old(storedQueue)
      ensures voiceActive == old(voiceActive) && preloadedUrls == old(preloadedUrls)
    {
      var newSize := fontSize + 2.0 * direction as real;
      if 12.0 <= newSize && newSize <= 24.0 {
        fontSize := newSize;
        storedFontSize := Some(newSize);
      }
    }

    /**
     * `preloadSectionData`: a link not yet preloaded is requested with `HEAD`; it is remembered
     * only when the request completes, so a failed one is retried on the next hover.
     */
    method PreloadSectionData(url: string, requestCompletes: bool) returns (requested: bool)
      modifies this
      ensures requested <==> url !in old(preloadedUrls)
      ensures preloadedUrls == if requested && requestCompletes then old(preloadedUrls) + {url} else old(preloadedUrls)
      ensures url in preloadedUrls <==> url in old(preloadedUrls) || requestCompletes
      ensures isOnline == old(isOnline) && offlineQueue == old(offlineQueue) && storedQueue == old(storedQueue)
      ensures voiceActive == old(voiceActive) && fontSize == old(fontSize) && storedFontSize == old(storedFontSize)
    {
      requested := url !in preloadedUrls;
      if requested && requestCompletes {
        preloadedUrls := preloadedUrls + {url};
      }
    }
  }
}
