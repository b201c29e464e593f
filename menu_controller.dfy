/**
 * The menu-bar controller: the icon cache it fills while populating menus, the menu bar it
 * builds from a specification and the key bindings it registers on the root window.  Each
 * method is proved to do what the functions of MenuSpec describe.
 */
module MenuController {
  import opened Wrappers
  import opened MenuSpec

  class MenuController {
    /** `menu_images`: the images loaded so far, by key. */
    var menuImages: map<string, Icon>
    /** Whether the picture file behind the "question_mark" key can be loaded. */
    const fileReadable: bool
    /** The handler the root window runs for each bound key sequence. */
    var keyBindings: map<string, Handler>
    /** The cascades of the menu bar currently configured on the root window. */
    var menubar: seq<Entry>

    /** Every cached image is the one its key loads. */
    ghost predicate Valid()
      reads this
    {
      forall k :: k in menuImages ==> LoadIcon(k, fileReadable) == Some(menuImages[k])
    }

    constructor (fileReadable: bool)
      ensures Valid() && this.fileReadable == fileReadable
      ensures menuImages == map[] && keyBindings == map[] && menubar == []
    {
      this.fileReadable := fileReadable;
      menuImages := map[];
      keyBindings := map[];
      menubar := [];
    }

    /** Only the built-in keys and the picture key are ever cached. */
    lemma CachedKeysKnown()
      requires Valid()
      ensures forall k :: k in menuImages ==> k in BuiltinIcons || k == QuestionMarkKey
    {
    }

    /**
     * `get_icon`: the cached image of a known key, or the image the key loads, which is cached
     * when there is one.
     */
    method GetIcon(key: string) returns (img: Option<Icon>)
      requires Valid()
      modifies this
      ensures Valid()
      ensures img == LoadIcon(key, fileReadable)
      ensures key in old(menuImages) ==> img == Some(old(menuImages)[key]) && menuImages == old(menuImages)
      ensures menuImages == if img.Some? then old(menuImages)[key := img.value] else old(menuImages)
      ensures keyBindings == old(keyBindings) && menubar == old(menubar)
    {
      if key in menuImages {
        img := Some(menuImages[key]);
        assert menuImages[key := img.value] == menuImages;
        return;
      }
      if key == QuestionMarkKey {
        if fileReadable {
          img := Some(FileImage(QuestionMarkPath));
          menuImages := menuImages[key := img.value];
        } else {
          img := None;
        }
        return;
      }
      var builtins := BuiltinIcons;
      if key in builtins {
        img := Some(builtins[key]);
        menuImages := menuImages[key := img.value];
      } else {
        img := None;
      }
    }

    /** `populate_menu`: add one entry per item, in order, stopping at the first item without a needed label. */
    method PopulateMenu(items: seq<Item>) returns (r: Result<seq<Entry>, MenuError>)
      requires Valid()
      modifies this
      ensures Valid() && r == Populate(items, fileReadable)
      ensures keyBindings == old(keyBindings) && menubar == old(menubar)
      decreases items, 1
    {
      var entries: seq<Entry> := [];
      var i := 0;
      while i < |items|
        invariant 0 <= i <= |items|
        invariant Valid()
        invariant Populate(items[..i], fileReadable) == Ok(entries)
        invariant keyBindings == old(keyBindings) && menubar == old(menubar)
      {
        var e := PopulateEntry(items[i]);
        assert items[..i + 1][..i] == items[..i];
        match e
        case Err(err) =>
          assert items[..i + 1][i] == items[i];
          assert Populate(items[..i + 1], fileReadable).Err?;
          PopulatePrefixFails(items, i + 1, fileReadable);
          assert err == Populate(items, fileReadable).error;
          return Err(err);
        case Ok(entry) =>
          entries := entries + [entry];
        i := i + 1;
      }
      assert items[..i] == items;
      r := Ok(entries);
    }

    /** The body of the `populate_menu` loop for one item, dispatched on its kind. */
    method PopulateEntry(item: Item) returns (r: Result<Entry, MenuError>)
      requires Valid()
      modifies this
      ensures Valid() && r == PopulateItem(item, fileReadable)
      ensures keyBindings == old(keyBindings) && menubar == old(menubar)
      decreases item, 0
    {
      var kind := KindOf(item);
      if kind == SeparatorKind {
        return Ok(Separator);
      }
      if kind == CascadeKind {
        var sub := PopulateMenu(item.items);
        match sub
        case Err(e) =>
          return Err(e);
        case Ok(entries) =>
          if item.title.None? {
            return Err(MissingLabel);
          }
          return Ok(Cascade(item.title.value, entries));
      }
      if item.title.None? {
        return Err(MissingLabel);
      }
      var command := ResolveAction(item.action);
      var accelerator := if Truthy(item.accelerator) then item.accelerator else None;
      var image: Option<Icon> := None;
      if Truthy(item.iconKey) {
        image := GetIcon(item.iconKey.value);
      }
      r := Ok(Command(item.title.value, command, StateOf(item), accelerator, image));
    }

    /** `bind_accelerators`: bind every walked item's non-empty key sequence to its resolved action. */
    method BindAccelerators(spec: seq<Item>)
      modifies this
      ensures keyBindings == Accelerators(old(keyBindings), spec)
      ensures menuImages == old(menuImages) && menubar == old(menubar)
    {
      var walked := WalkItems(spec);
      var i := 0;
      while i < |walked|
        invariant 0 <= i <= |walked|
        invariant keyBindings == BindAll(old(keyBindings), Bindings(walked[..i]))
        invariant menuImages == old(menuImages) && menubar == old(menubar)
      {
        BindNext(old(keyBindings), walked, i);
        BindItem(walked[i]);
        i := i + 1;
      }
      assert walked[..i] == walked;
    }

    /** The body of the loop in `bind_accelerators`: one item's key sequence, if non-empty, now runs its action. */
    method BindItem(item: Item)
      modifies this
      ensures keyBindings == if Truthy(item.bind) then old(keyBindings)[item.bind.value := ResolveAction(item.action)] else old(keyBindings)
      ensures menuImages == old(menuImages) && menubar == old(menubar)
    {
      if Truthy(item.bind) {
        keyBindings := keyBindings[item.bind.value := ResolveAction(item.action)];
      }
    }

    /** One pass of the loop in `build_menu_bar`: read the label of `top`, populate its menu and attach it. */
    method AddMenu(top: Item) returns (err: Option<MenuError>)
      requires Valid()
      modifies this
      ensures Valid() && keyBindings == old(keyBindings)
      ensures match TopEntry(top, fileReadable)
        case Ok(entry) => err.None? && menubar == old(menubar) + [entry]
        case Err(e) => err == Some(e) && menubar == old(menubar)
    {
      if top.title.None? {
        return Some(MissingLabel);
      }
      var sub := PopulateMenu(top.items);
      match sub
      case Err(e) =>
        err := Some(e);
      case Ok(entries) =>
        menubar := menubar + [Cascade(top.title.value, entries)];
        err := None;
    }

    /**
     * `build_menu_bar`: install a new menu bar, add one cascade per top-level menu and then bind
     * the accelerators; a missing label stops it before anything is bound.
     */
    method BuildMenuBar(spec: seq<Item>) returns (err: Option<MenuError>)
      requires Valid()
      modifies this
      ensures Valid()
      ensures BarOutcome(menubar, err) == BuildBar(spec, fileReadable)
      ensures err.None? ==> keyBindings == Accelerators(old(keyBindings), spec)
      ensures err.Some? ==> keyBindings == old(keyBindings)
    {
      menubar := [];
      var i := 0;
      while i < |spec|
        invariant 0 <= i <= |spec|
        invariant Valid()
        invariant BuildBar(spec[..i], fileReadable) == BarOutcome(menubar, None)
        invariant keyBindings == old(keyBindings)
      {
        BuildBarNext(spec, i, fileReadable);
        err := AddMenu(spec[i]);
        if err.Some? {
          BuildBarStops(spec, i + 1, fileReadable);
          return;
        }
        i := i + 1;
      }
      assert spec[..i] == spec;
      BindAccelerators(spec);
      err := None;
    }
  }
}
