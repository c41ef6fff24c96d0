/**
 * Colours of the watermark and the per-user colour preference that the bot
 * keeps in memory: the fixed table of six inline-keyboard choices, the update
 * done when a button is pressed, and the lookup done when a photo arrives.
 */
module Palette {
  import opened Wrappers

  /** One 8-bit channel of an RGBA tuple. */
  newtype Channel = x: int | 0 <= x < 256

  datatype RGBA = RGBA(r: Channel, g: Channel, b: Channel, a: Channel)

  /** Fill colour used when a user never chose one: black, alpha 180. */
  const DefaultFontColor: RGBA := RGBA(0, 0, 0, 180)

  /** Colour of the outline strokes drawn around the text: white, alpha 200. */
  const TextOutlineColor: RGBA := RGBA(255, 255, 255, 200)

  /** The alpha every selectable fill colour carries. */
  const ChoiceAlpha: Channel := 180

  /** An entry of the colour table: the name shown back to the user and the fill value. */
  datatype ColorChoice = ColorChoice(name: string, value: RGBA)

  /** The callback keys the colour table recognises. */
  const CallbackKeys: set<string> :=
    {"color_black", "color_white", "color_red", "color_blue", "color_green", "color_orange"}

  /** The colour table consulted by the button handler. */
  function ColorTable(): map<string, ColorChoice>
  {
    map[
      "color_black" := ColorChoice("الأسود", RGBA(0, 0, 0, 180)),
      "color_white" := ColorChoice("الأبيض", RGBA(255, 255, 255, 180)),
      "color_red" := ColorChoice("الأحمر", RGBA(200, 0, 0, 180)),
      "color_blue" := ColorChoice("الأزرق", RGBA(0, 0, 200, 180)),
      "color_green" := ColorChoice("الأخضر", RGBA(0, 128, 0, 180)),
      "color_orange" := ColorChoice("البرتقالي", RGBA(255, 140, 0, 180))
    ]
  }

  /** The table entry for a callback key, if the key is one of the six. */
  function Choice(key: string): (c: Option<ColorChoice>)
    ensures c.Some? <==> key in CallbackKeys
    ensures c.Some? ==> c.value.value.a == ChoiceAlpha
  {
    if key in ColorTable() then Some(ColorTable()[key]) else None
  }

  /** The colours a user can end up with by pressing buttons. */
  ghost predicate IsChoiceValue(c: RGBA)
  {
    exists key :: key in ColorTable() && ColorTable()[key].value == c
  }

  /** The stored colour of every user, keyed by user identifier. */
  type UserId = int

  type Preferences = map<UserId, RGBA>

  /** The table after `user` pressed the button with callback data `key`. */
  function Select(prefs: Preferences, user: UserId, key: string): Preferences
  {
    match Choice(key)
    case Some(c) => prefs[user := c.value]
    case None => prefs
  }

  /** The fill colour used for `user`'s next photo. */
  function FontColor(prefs: Preferences, user: UserId): RGBA
  {
    if user in prefs then prefs[user] else DefaultFontColor
  }

  /** Every stored colour came from the colour table. */
  ghost predicate OnlyChoices(prefs: Preferences)
  {
    forall u :: u in prefs ==> IsChoiceValue(prefs[u])
  }

  /** The six keys give six distinct fill colours, all with alpha 180. */
  lemma ChoicesDistinct(k1: string, k2: string)
    requires k1 in CallbackKeys && k2 in CallbackKeys && k1 != k2
    ensures Choice(k1).value.value != Choice(k2).value.value
    ensures Choice(k1).value.value.a == ChoiceAlpha
  {
  }

  /** Pressing a known button makes that button's colour the user's colour. */
  lemma SelectKnownSets(prefs: Preferences, user: UserId, key: string)
    requires key in CallbackKeys
    ensures FontColor(Select(prefs, user, key), user) == Choice(key).value.value
    ensures FontColor(Select(prefs, user, key), user).a == ChoiceAlpha
    ensures Select(prefs, user, key).Keys == prefs.Keys + {user}
  {
  }

  /** Pressing anything else leaves the whole table as it was. */
  lemma SelectUnknownKeeps(prefs: Preferences, user: UserId, key: string)
    requires key !in CallbackKeys
    ensures Select(prefs, user, key) == prefs
  {
  }

  /** A press by one user never changes another user's colour. */
  lemma SelectOthersUnchanged(prefs: Preferences, user: UserId, key: string, other: UserId)
    requires other != user
    ensures other in Select(prefs, user, key) <==> other in prefs
    ensures FontColor(Select(prefs, user, key), other) == FontColor(prefs, other)
  {
  }

  /** The last known button a user pressed decides their colour. */
  lemma SelectLastWins(prefs: Preferences, user: UserId, k1: string, k2: string)
    requires k2 in CallbackKeys
    ensures Select(Select(prefs, user, k1), user, k2) == Select(prefs, user, k2)
  {
  }

  /** A user that never pressed a known button gets the default colour. */
  lemma FontColorUnset(prefs: Preferences, user: UserId)
    requires user !in prefs
    ensures FontColor(prefs, user) == DefaultFontColor
  {
  }

  /** A user with a stored colour gets exactly that colour. */
  lemma FontColorStored(prefs: Preferences, user: UserId)
    requires user in prefs
    ensures FontColor(prefs, user) == prefs[user]
  {
  }

  /** Button presses keep the table within the colour table's values. */
  lemma SelectKeepsOnlyChoices(prefs: Preferences, user: UserId, key: string)
    requires OnlyChoices(prefs)
    ensures OnlyChoices(Select(prefs, user, key))
  {
    var next := Select(prefs, user, key);
    forall u | u in next
      ensures IsChoiceValue(next[u])
    {
      if u == user && key in CallbackKeys {
        assert ColorTable()[key].value == next[u];
      } else {
        assert next[u] == prefs[u];
      }
    }
  }

  /** Whatever was pressed, the fill colour of a photo always has alpha 180. */
  lemma FontColorAlpha(prefs: Preferences, user: UserId)
    requires OnlyChoices(prefs)
    ensures FontColor(prefs, user).a == ChoiceAlpha
  {
    if user in prefs {
      var key :| key in ColorTable() && ColorTable()[key].value == prefs[user];
      assert Choice(key).Some?;
    }
  }

  /**
   * The bot's in-memory per-user data: the `font_color` entry of each user's
   * data, absent until the user picks a colour.
   */
  class PreferenceStore {
    var fontColor: Preferences

    ghost predicate Valid()
      reads this
    {
      OnlyChoices(fontColor)
    }

    constructor ()
      ensures Valid() && fontColor == map[]
    {
      fontColor := map[];
    }

    /**
     * The button handler: a known key overwrites the user's colour and is
     * returned so that its name can be shown; any other key changes nothing.
     */
    method ButtonCallback(user: UserId, choice: string) returns (selected: Option<ColorChoice>)
      requires Valid()
      modifies this
      ensures Valid()
      ensures selected == Choice(choice)
      ensures selected.Some? <==> choice in CallbackKeys
      ensures selected.Some? ==> selected.value.value.a == ChoiceAlpha
      ensures fontColor == Select(old(fontColor), user, choice)
      ensures selected.Some? ==> fontColor == old(fontColor)[user := selected.value.value]
      ensures selected.None? ==> fontColor == old(fontColor)
    {
      SelectKeepsOnlyChoices(fontColor, user, choice);
      selected := Choice(choice);
      if selected.Some? {
        fontColor := fontColor[user := selected.value.value];
      }
    }

    /** The photo handler's lookup of the colour to stamp with. */
    method FontColorFor(user: UserId) returns (c: RGBA)
      requires Valid()
      ensures c == FontColor(fontColor, user)
      ensures c.a == ChoiceAlpha
      ensures user !in fontColor ==> c == DefaultFontColor
    {
      FontColorAlpha(fontColor, user);
      c := FontColor(fontColor, user);
    }
  }
}
