/** engine/options/OptionsInstance.java: the player's settings. The username
    is kept only when it is 3 to 10 units long and replaced by "-" otherwise;
    the music volume is clamped to 0..100. Both go through their setters from
    the constructor on, so they are always in that shape. */
module Options {
  import opened JavaLang

  const MIN_USERNAME_LENGTH := 3
  const MAX_USERNAME_LENGTH := 10
  const MIN_VOLUME := 0
  const MAX_VOLUME := 100

  /** What `setUsername` stores for a name it refuses. */
  const NO_USERNAME: JString := Str("-")

  /** A font setting (`JsonFont`, a wrapper of an AWT font); its contents play
      no part in the options, so the model only tells fonts apart. */
  datatype JsonFont = JsonFont(id: nat)

  /** `isUsernameValid(String)`: three to ten UTF-16 units. */
  predicate IsUsernameValid(name: JString)
    ensures IsUsernameValid(name) ==> name != NO_USERNAME && name != []
  {
    MIN_USERNAME_LENGTH <= |name| <= MAX_USERNAME_LENGTH
  }

  /** The placeholder name is itself refused, so it can never be mistaken for
      a name the player chose. */
  lemma NoUsernameInvalid()
    ensures !IsUsernameValid(NO_USERNAME)
    ensures |NO_USERNAME| == 1
  {
  }

  /** `Math.max(0, Math.min(100, volume))`. */
  function Clamp(volume: int): (r: int)
    ensures MIN_VOLUME <= r <= MAX_VOLUME
    ensures MIN_VOLUME <= volume <= MAX_VOLUME ==> r == volume
    ensures volume < MIN_VOLUME ==> r == MIN_VOLUME
    ensures volume > MAX_VOLUME ==> r == MAX_VOLUME
  {
    var low := if MAX_VOLUME < volume then MAX_VOLUME else volume;
    if MIN_VOLUME > low then MIN_VOLUME else low
  }

  /** Clamping twice is clamping once, and clamping keeps the order of
      volumes. */
  lemma ClampIdempotent(a: int, b: int)
    ensures Clamp(Clamp(a)) == Clamp(a)
    ensures a <= b ==> Clamp(a) <= Clamp(b)
  {
  }

  class OptionsInstance {
    var username: JString
    var grayOutNearbyCells: bool
    var font: JsonFont
    var musicVolume: int
    var soundtrackFilePath: JString

    /** The shape the setters keep the two validated fields in. */
    ghost predicate Valid()
      reads this
    {
      (IsUsernameValid(username) || username == NO_USERNAME) && MIN_VOLUME <= musicVolume <= MAX_VOLUME
    }

    /** `new OptionsInstance(username, musicVolume, grayOutNearbyCells, font,
        soundtrackFilePath)`: the name and the volume go through their
        setters; a `null` font is replaced by the default font, which
        `FontManager` supplies and the model takes as a parameter. */
    constructor (username: JString, musicVolume: int, grayOutNearbyCells: bool, font: Option<JsonFont>,
                 defaultFont: JsonFont, soundtrackFilePath: JString)
      ensures Valid()
      ensures this.username == (if IsUsernameValid(username) then username else NO_USERNAME)
      ensures this.musicVolume == Clamp(musicVolume)
      ensures this.grayOutNearbyCells == grayOutNearbyCells
      ensures this.font == (if font.Some? then font.value else defaultFont)
      ensures this.soundtrackFilePath == soundtrackFilePath
    {
      this.soundtrackFilePath := soundtrackFilePath;
      this.grayOutNearbyCells := grayOutNearbyCells;
      this.font := if font.Some? then font.value else defaultFont;
      new;
      SetUsername(username);
      SetMusicVolume(musicVolume);
    }

    function IsGrayOutNearbyCells(): (r: bool)
      reads this
      ensures r == grayOutNearbyCells
    {
      grayOutNearbyCells
    }

    method SetGrayOutNearbyCells(grayOutNearbyCells: bool)
      modifies this`grayOutNearbyCells
      ensures IsGrayOutNearbyCells() == grayOutNearbyCells
    {
      this.grayOutNearbyCells := grayOutNearbyCells;
    }

    function GetUsername(): (r: JString)
      reads this
      ensures r == username
      ensures Valid() ==> IsUsernameValid(r) || r == NO_USERNAME
    {
      username
    }

    /** `setUsername(newUsername)`: a valid name is stored as it is, any other
        becomes "-". */
    method SetUsername(newUsername: JString)
      modifies this`username
      ensures GetUsername() == (if IsUsernameValid(newUsername) then newUsername else NO_USERNAME)
      ensures HasValidUsername() <==> IsUsernameValid(newUsername)
      ensures MIN_VOLUME <= musicVolume <= MAX_VOLUME ==> Valid()
    {
      if IsUsernameValid(newUsername) {
        username := newUsername;
      } else {
        username := NO_USERNAME;
      }
    }

    /** `isUsernameValid()`, on the stored name. */
    function HasValidUsername(): (r: bool)
      reads this
      ensures r <==> IsUsernameValid(username)
      ensures Valid() ==> (r <==> username != NO_USERNAME)
    {
      IsUsernameValid(username)
    }

    function GetJsonFont(): (r: JsonFont)
      reads this
      ensures r == font
    {
      font
    }

    method SetFont(font: JsonFont)
      modifies this`font
      ensures GetJsonFont() == font
    {
      this.font := font;
    }

    function GetMusicVolume(): (r: int)
      reads this
      ensures r == musicVolume
      ensures Valid() ==> MIN_VOLUME <= r <= MAX_VOLUME
    {
      musicVolume
    }

    /** `setMusicVolume(musicVolume)`: the volume clamped to 0..100. */
    method SetMusicVolume(musicVolume: int)
      modifies this`musicVolume
      ensures GetMusicVolume() == Clamp(musicVolume)
      ensures IsUsernameValid(username) || username == NO_USERNAME ==> Valid()
    {
      this.musicVolume := Clamp(musicVolume);
    }

    function GetSoundtrackFilePath(): (r: JString)
      reads this
      ensures r == soundtrackFilePath
    {
      soundtrackFilePath
    }

    method SetSoundtrackFilePath(soundtrackFilePath: JString)
      modifies this`soundtrackFilePath
      ensures GetSoundtrackFilePath() == soundtrackFilePath
    {
      this.soundtrackFilePath := soundtrackFilePath;
    }
  }
}
