/**
 * The persistent audio player of `components/audio-player.tsx`: the provider
 * state (`audioUrl`, `isPlaying`, `duration`, `currentTime`) and the handlers
 * that update it, plus the pure helpers the player bar renders with
 * (`formatTime`, the progress percentage, the click-to-seek percentage).
 *
 * Times are exact reals in seconds. The browser's IEEE values enter only where
 * the source tests for them: `formatTime` takes a `Seconds` that may be NaN or
 * infinite, and the metadata handler receives a duration that may be NaN.
 */
module AudioPlayer {
  import opened Wrappers
  import opened Text

  function Max(a: real, b: real): real { if a >= b then a else b }
  function Min(a: real, b: real): real { if a <= b then a else b }

  /** `Math.max(lo, Math.min(x, hi))`. */
  function Clamp(x: real, lo: real, hi: real): (r: real)
    requires lo <= hi
    ensures lo <= r <= hi
    ensures lo <= x <= hi ==> r == x
    ensures x < lo ==> r == lo
    ensures x > hi ==> r == hi
  {
    Max(lo, Min(x, hi))
  }

  const SkipAmount: real := 5.0

  /** A duration as the `<audio>` element reports it: a number, or NaN before it is known. */
  datatype Reported = Known(seconds: real) | Unknown

  class Player {
    var audioUrl: Option<string>
    var isPlaying: bool
    var duration: real
    var currentTime: real
    /** `audioRef.current` is set: an `<audio>` element is mounted. */
    var hasElement: bool

    /** The state the handlers keep: the duration is never negative, nor is a time they set. */
    predicate Valid()
      reads this
    {
      duration >= 0.0 && currentTime >= 0.0
    }

    /** `audioUrl` is truthy: a non-empty URL is loaded. */
    predicate Loaded()
      reads this
    {
      audioUrl.Some? && audioUrl.value != ""
    }

    /** The initial `useState` values, before any element is mounted. */
    constructor ()
      ensures Valid()
      ensures audioUrl == None && !isPlaying && duration == 0.0 && currentTime == 0.0 && !hasElement
    {
      audioUrl := None;
      isPlaying := false;
      duration := 0.0;
      currentTime := 0.0;
      hasElement := false;
    }

    /** A render: the `<audio>` element exists exactly when a URL is loaded. */
    method Render()
      modifies this
      ensures hasElement == old(Loaded())
      ensures audioUrl == old(audioUrl) && isPlaying == old(isPlaying)
      ensures duration == old(duration) && currentTime == old(currentTime)
    {
      hasElement := Loaded();
    }

    /** `loadAudio`: a new URL starts stopped, at time 0, with no duration yet. */
    method LoadAudio(url: string)
      modifies this
      ensures Valid()
      ensures audioUrl == Some(url) && !isPlaying && currentTime == 0.0 && duration == 0.0
      ensures hasElement == old(hasElement)
    {
      audioUrl := Some(url);
      currentTime := 0.0;
      duration := 0.0;
      isPlaying := false;
    }

    /** `togglePlay`: flips `isPlaying` when an element exists, and does nothing otherwise. */
    method TogglePlay()
      modifies this
      ensures isPlaying == (if old(hasElement) then !old(isPlaying) else old(isPlaying))
      ensures audioUrl == old(audioUrl) && duration == old(duration)
      ensures currentTime == old(currentTime) && hasElement == old(hasElement)
    {
      if !hasElement {
        return;
      }
      isPlaying := !isPlaying;
    }

    /** `seek`: with an element and a non-zero duration, jump to `time` clamped into `[0, duration]`. */
    method Seek(time: real)
      requires Valid()
      modifies this
      ensures Valid()
      ensures !old(hasElement) || old(duration) == 0.0 ==> currentTime == old(currentTime)
      ensures old(hasElement) && old(duration) != 0.0 ==>
                && 0.0 <= currentTime <= duration
                && (0.0 <= time <= duration ==> currentTime == time)
                && (time < 0.0 ==> currentTime == 0.0)
                && (time > duration ==> currentTime == duration)
      ensures audioUrl == old(audioUrl) && isPlaying == old(isPlaying)
      ensures duration == old(duration) && hasElement == old(hasElement)
    {
      if hasElement && duration != 0.0 {
        var newTime := Clamp(time, 0.0, duration);
        currentTime := newTime;
      }
    }

    /** The metadata listener: record the reported duration, or 0 while it is NaN. */
    method MetadataLoaded(reported: Reported)
      requires Valid()
      requires reported.Known? ==> reported.seconds >= 0.0
      modifies this
      ensures Valid()
      ensures duration == (if reported.Known? then reported.seconds else 0.0)
      ensures audioUrl == old(audioUrl) && isPlaying == old(isPlaying)
      ensures currentTime == old(currentTime) && hasElement == old(hasElement)
    {
      duration := if reported.Unknown? then 0.0 else reported.seconds;
    }

    /** The `timeupdate` listener: the element's playback position becomes the state's. */
    method TimeUpdate(position: real)
      requires Valid()
      requires position >= 0.0
      modifies this
      ensures Valid()
      ensures currentTime == position
      ensures audioUrl == old(audioUrl) && isPlaying == old(isPlaying)
      ensures duration == old(duration) && hasElement == old(hasElement)
    {
      currentTime := position;
    }

    /** The `ended` listener: playback stops at the end. */
    method Ended()
      requires Valid()
      modifies this
      ensures Valid()
      ensures !isPlaying && currentTime == duration
      ensures audioUrl == old(audioUrl) && duration == old(duration) && hasElement == old(hasElement)
    {
      isPlaying := false;
      currentTime := duration;
    }

    /** The window `keydown` listener; `prevented` is whether it called `preventDefault`. */
    method HandleKeyDown(key: string, metaKey: bool, ctrlKey: bool, altKey: bool)
      returns (prevented: bool)
      requires Valid()
      modifies this
      ensures Valid()
      // a modifier key, no loaded audio, or another key: nothing happens
      ensures metaKey || ctrlKey || altKey || !old(Loaded()) ==> !prevented
      ensures !prevented ==>
                && currentTime == old(currentTime) && isPlaying == old(isPlaying)
      ensures prevented <==>
                !(metaKey || ctrlKey || altKey) && old(Loaded()) && key in {"ArrowLeft", "ArrowRight", " "}
      // the arrows seek 5 seconds back or forward, clamped like any seek; space toggles play
      ensures prevented && key == "ArrowLeft" && old(hasElement) && old(duration) != 0.0 ==>
                currentTime == Clamp(old(currentTime) - SkipAmount, 0.0, duration)
      ensures prevented && key == "ArrowRight" && old(hasElement) && old(duration) != 0.0 ==>
                currentTime == Clamp(old(currentTime) + SkipAmount, 0.0, duration)
      // an arrow without an element or a duration seeks nowhere
      ensures prevented && key != " " && !(old(hasElement) && old(duration) != 0.0) ==>
                currentTime == old(currentTime)
      ensures prevented && key != " " ==> isPlaying == old(isPlaying)
      ensures prevented && key == " " ==>
                && currentTime == old(currentTime)
                && isPlaying == (if old(hasElement) then !old(isPlaying) else old(isPlaying))
      ensures audioUrl == old(audioUrl) && duration == old(duration) && hasElement == old(hasElement)
    {
      if metaKey || ctrlKey || altKey || !Loaded() {
        return false;
      }
      if key == "ArrowLeft" {
        prevented := true;
        Seek(currentTime - SkipAmount);
      } else if key == "ArrowRight" {
        prevented := true;
        Seek(currentTime + SkipAmount);
      } else if key == " " {
        prevented := true;
        TogglePlay();
      } else {
        prevented := false;
      }
    }

    /** `handleSeek`: a click `clickX` pixels into a bar `width` pixels wide seeks to that share of the duration. */
    method HandleClick(clickX: real, width: real)
      requires Valid()
      requires width > 0.0
      modifies this
      ensures Valid()
      ensures old(duration) == 0.0 || !old(hasElement) ==> currentTime == old(currentTime)
      ensures old(duration) != 0.0 && old(hasElement) ==>
                currentTime == TargetTime(clickX, width, duration) && currentTime <= duration
      ensures audioUrl == old(audioUrl) && isPlaying == old(isPlaying)
      ensures duration == old(duration) && hasElement == old(hasElement)
    {
      if duration == 0.0 {
        return;
      }
      var targetTime := TargetTime(clickX, width, duration);
      Seek(targetTime);
    }
  }

  /** The clicked share of the bar as a percentage, clamped into `[0, 100]`. */
  function ClickPercentage(clickX: real, width: real): (p: real)
    requires width > 0.0
    ensures 0.0 <= p <= 100.0
    ensures 0.0 <= clickX <= width ==> p == clickX / width * 100.0
    ensures clickX < 0.0 ==> p == 0.0
    ensures clickX > width ==> p == 100.0
  {
    Clamp(clickX / width * 100.0, 0.0, 100.0)
  }

  /** The time a click seeks to; it always lies within the track. */
  function TargetTime(clickX: real, width: real, duration: real): (t: real)
    requires width > 0.0 && duration >= 0.0
    ensures 0.0 <= t <= duration
  {
    var share := ClickPercentage(clickX, width) / 100.0;
    assert share * duration <= duration by {
      assert duration - share * duration == (1.0 - share) * duration;
    }
    share * duration
  }

  /** `progressValue`: the played share in percent, 0 while no positive duration is known. */
  function ProgressValue(currentTime: real, duration: real): (v: real)
    ensures duration <= 0.0 ==> v == 0.0
    ensures duration > 0.0 && 0.0 <= currentTime <= duration ==> 0.0 <= v <= 100.0
    ensures duration > 0.0 ==> v * duration == currentTime * 100.0
  {
    if duration > 0.0 then currentTime / duration * 100.0 else 0.0
  }

  /** A click at a share of the bar shows that same share as progress once the seek lands. */
  lemma ClickShowsClickedShare(clickX: real, width: real, duration: real)
    requires width > 0.0 && duration > 0.0
    ensures ProgressValue(TargetTime(clickX, width, duration), duration) == ClickPercentage(clickX, width)
  {
    var p := ClickPercentage(clickX, width);
    var t := TargetTime(clickX, width, duration);
    var v := ProgressValue(t, duration);
    assert t * 100.0 == p * duration;
    assert (v - p) * duration == 0.0;
  }

  /** A number of seconds as JavaScript may hold it. */
  datatype Seconds = Finite(value: real) | NaN | PosInfinity | NegInfinity

  /** NaN, `Infinity` and negative times have no clock reading. */
  predicate Displayable(s: Seconds) {
    s.Finite? && s.value >= 0.0
  }

  /** `sec < 10 ? "0" : ""` followed by the number. */
  function TwoDigits(n: nat): (s: string)
    requires n < 60
    ensures |s| == 2 && AllDigits(s) && DecimalValue(s) == n
  {
    NatToStringRoundTrip(n);
    if n < 10 then
      assert NatToString(n) == [DigitChar(n)];
      "0" + NatToString(n)
    else
      assert NatToString(n) == NatToString(n / 10) + [DigitChar(n % 10)];
      assert NatToString(n / 10) == [DigitChar(n / 10)];
      NatToString(n)
  }

  /** `formatTime`: whole minutes, a colon and two-digit seconds, or `--:--`. */
  function FormatTime(s: Seconds): (r: string)
    ensures r == "--:--" <==> !Displayable(s)
  {
    if !Displayable(s) then "--:--"
    else
      var whole := s.value.Floor;
      NatToStringRoundTrip(whole / 60);
      var r := NatToString(whole / 60) + ":" + TwoDigits(whole % 60);
      assert r[0] != '-';
      r
  }

  /** Reading an `m:ss` clock back as a number of seconds; anything else has no reading. */
  function ClockSeconds(t: string): (r: Option<nat>)
    ensures r.Some? ==> |t| >= 4 && t[|t| - 3] == ':'
  {
    if |t| >= 4 && t[|t| - 3] == ':' && AllDigits(t[..|t| - 3]) && AllDigits(t[|t| - 2..])
       && DecimalValue(t[|t| - 2..]) < 60
    then Some(DecimalValue(t[..|t| - 3]) * 60 + DecimalValue(t[|t| - 2..]))
    else None
  }

  /** The clock `formatTime` shows reads back as the whole seconds it was given. */
  lemma FormatTimeRoundTrip(s: Seconds)
    requires Displayable(s)
    ensures ClockSeconds(FormatTime(s)) == Some(s.value.Floor)
  {
    var whole := s.value.Floor;
    var m := NatToString(whole / 60);
    var ss := TwoDigits(whole % 60);
    var t := FormatTime(s);
    NatToStringRoundTrip(whole / 60);
    assert t == m + ":" + ss;
    assert t[..|t| - 3] == m;
    assert t[|t| - 2..] == ss;
    assert t[|t| - 3] == ':';
  }

  /** The placeholder is not a clock reading. */
  lemma PlaceholderHasNoReading()
    ensures ClockSeconds("--:--") == None
  {
    assert !IsDigit("--:--"[0]);
  }
}
