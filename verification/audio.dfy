/** The play/pause toggle shared by every play button, over the hidden
    `<audio>` element and the component's `isPlaying` and
    `currentAudioUrl` state. */
module Audio {
  import opened Wrappers

  /** The `<audio>` element, reduced to its source URL. */
  datatype Player = Player(src: string)

  /** `player` is None before the element is attached to its ref. */
  datatype AudioState = AudioState(player: Option<Player>, isPlaying: bool, currentAudioUrl: string)

  /** Right after mounting: the element exists with no source. */
  const Mounted := AudioState(Some(Player("")), false, "")

  /** `playAudio(url)`: without an element nothing happens; pressing the
      button of the URL that is loaded and playing pauses it; anything else
      loads the URL and plays it. */
  function PlayAudio(s: AudioState, url: string): (r: AudioState)
    ensures s.player.None? ==> r == s
    ensures s.player.Some? ==> r.player == Some(Player(url))
    ensures s.player.Some? ==> (r.isPlaying <==> !(s.isPlaying && s.player.value.src == url))
    ensures r.isPlaying && s.player.Some? ==> r.currentAudioUrl == url
    ensures !r.isPlaying ==> r.currentAudioUrl == s.currentAudioUrl
  {
    match s.player
    case None => s
    case Some(p) =>
      if p.src == url && s.isPlaying then s.(isPlaying := false)
      else AudioState(Some(Player(url)), true, url)
  }

  /** The element's `ended` event: playing stops and no URL is current. */
  function Ended(s: AudioState): (r: AudioState)
    ensures !r.isPlaying && r.currentAudioUrl == ""
    ensures r.player == s.player
  {
    s.(isPlaying := false, currentAudioUrl := "")
  }

  /** The element's `pause` event. */
  function Paused(s: AudioState): (r: AudioState)
    ensures !r.isPlaying
    ensures r.player == s.player && r.currentAudioUrl == s.currentAudioUrl
  {
    s.(isPlaying := false)
  }

  /** The element's `play` event. */
  function Played(s: AudioState): (r: AudioState)
    ensures r.isPlaying
    ensures r.player == s.player && r.currentAudioUrl == s.currentAudioUrl
  {
    s.(isPlaying := true)
  }

  /** The state the buttons rely on: while playing, the element holds the
      URL the component calls current. */
  predicate Consistent(s: AudioState) {
    s.isPlaying ==> s.player.Some? && s.currentAudioUrl == s.player.value.src
  }

  /** A button for `url` shows "Pause" (or the playing style) exactly when
      playback is on and `url` is current; in a consistent state that means
      the element is playing that very URL. */
  function ShowsPause(s: AudioState, url: string): (b: bool)
    ensures b ==> s.isPlaying && s.currentAudioUrl == url
    ensures Consistent(s) && b ==> s.player == Some(Player(url))
    ensures s.isPlaying && s.currentAudioUrl == url ==> b
  {
    s.isPlaying && s.currentAudioUrl == url
  }

  /** The state right after mounting is consistent, so with
      `ConsistentPreserved` every state the toggle and the events reach
      from mount is. */
  lemma MountedConsistent()
    ensures Consistent(Mounted)
  {
  }

  /** The toggle and the element's `ended` and `pause` events keep the
      state consistent; so does `play` once a URL is current. */
  lemma ConsistentPreserved(s: AudioState, url: string)
    requires Consistent(s)
    ensures Consistent(PlayAudio(s, url))
    ensures Consistent(Ended(s))
    ensures Consistent(Paused(s))
    ensures s.player.Some? && s.currentAudioUrl == s.player.value.src ==> Consistent(Played(s))
  {
  }

  /** Pressing a play button flips that button between "Play" and
      "Pause", once the element is attached. */
  lemma ToggleFlipsButton(s: AudioState, url: string)
    requires Consistent(s)
    requires s.player.Some?
    ensures ShowsPause(PlayAudio(s, url), url) <==> !ShowsPause(s, url)
  {
  }

  /** Pressing the same button twice gives it back its label; from a
      button showing "Play", it leaves its URL loaded, current and paused. */
  lemma PressTwiceRestoresButton(s: AudioState, url: string)
    requires Consistent(s)
    requires s.player.Some?
    ensures ShowsPause(PlayAudio(PlayAudio(s, url), url), url) <==> ShowsPause(s, url)
    ensures !ShowsPause(s, url) ==>
      PlayAudio(PlayAudio(s, url), url) == AudioState(Some(Player(url)), false, url)
  {
    ToggleFlipsButton(s, url);
    ConsistentPreserved(s, url);
    ToggleFlipsButton(PlayAudio(s, url), url);
  }

  /** Pressing a second button while another URL plays switches to it, and
      its button, not the first one, shows "Pause". */
  lemma SwitchingTracks(s: AudioState, first: string, second: string)
    requires s.player.Some?
    requires first != second
    ensures var r := PlayAudio(PlayAudio(s, first), second);
      ShowsPause(r, second) && !ShowsPause(r, first) && r.player == Some(Player(second))
  {
  }

  /** The `pause` and `play` events the element fires in answer to the
      toggle's own `pause()` and `play()` calls change nothing. */
  lemma EchoedEventsChangeNothing(s: AudioState, url: string)
    requires s.player.Some?
    ensures var r := PlayAudio(s, url); if r.isPlaying then Played(r) == r else Paused(r) == r
  {
  }
}
