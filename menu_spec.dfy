/**
 * The declarative menu specification of the menu-bar controller and the pure parts of building
 * it: the walk that flattens it, the dispatch from an item's "action" to a handler, the icon a
 * key loads, what populating a menu produces, and which keys are bound to which handlers.
 */
module MenuSpec {
  import opened Wrappers

  /**
   * One menu entry of the specification, a dictionary in which every key is optional.  An
   * absent "items" key reads as the empty list, so it is a plain sequence here, and the
   * "label" key is the `title` field.
   */
  datatype Item = Item(
    kind: Option<Kind>,
    title: Option<string>,
    action: ActionSpec,
    iconKey: Option<string>,
    accelerator: Option<string>,
    bind: Option<string>,
    state: Option<string>,
    items: seq<Item>)

  /**
   * The value under "kind": the three strings the controller tests for, and any other string,
   * which it treats like "command".
   */
  datatype Kind = CommandKind | SeparatorKind | CascadeKind | OtherKind

  /** The value under "action": absent or None, a callable, a string, or any other value. */
  datatype ActionSpec = NoAction | Callable(id: nat) | Named(name: string) | OtherValue

  /** What a menu entry or a key binding runs. */
  datatype Handler =
    | StatusMessage(text: string)
    | Passed(id: nat)
    | ActionMethod(name: string)
    | UnknownActionError(name: string)
    | InvalidTypeError

  /** A menu image: a 12x12 square of one colour, or the picture file for the sample screen. */
  datatype Icon = PixelIcon(color: string) | FileImage(path: string)

  /** One entry of a populated Tk menu. */
  datatype Entry =
    | Separator
    | Cascade(title: string, entries: seq<Entry>)
    | Command(title: string, command: Handler, state: string, accelerator: Option<string>, image: Option<Icon>)

  /** Building stops at the first item that needs a label and has none (a KeyError). */
  datatype MenuError = MissingLabel

  /** Python's truth value of an optional string: present and not empty. */
  predicate Truthy(s: Option<string>) {
    s.Some? && s.value != ""
  }

  predicate IsCascade(item: Item) {
    item.kind == Some(CascadeKind)
  }

  /** `item.get("kind", "command")`. */
  function KindOf(item: Item): Kind {
    if item.kind.Some? then item.kind.value else CommandKind
  }

  // ---------------------------------------------------------------------------------------------
  // Walking the specification
  // ---------------------------------------------------------------------------------------------

  /** `walk_item`: the item, then the walks of its children when it is a cascade. */
  function WalkItem(item: Item): (out: seq<Item>)
    ensures |out| >= 1 && out[0] == item
    ensures !IsCascade(item) ==> out == [item]
    decreases item
  {
    [item] + (if IsCascade(item) then WalkChildren(item.items) else [])
  }

  /** The walks of the items, one after the other. */
  function WalkChildren(items: seq<Item>): (out: seq<Item>)
    ensures |out| >= |items|
    decreases items
  {
    if items == [] then [] else WalkItem(items[0]) + WalkChildren(items[1..])
  }

  /** `walk_items`: the items of every top-level menu, walked; the top-level menus themselves are not included. */
  function WalkItems(spec: seq<Item>): seq<Item> {
    if spec == [] then [] else WalkChildren(spec[0].items) + WalkItems(spec[1..])
  }

  /** An item is walked exactly when it is in the walk of some top-level menu's items. */
  lemma {:induction false} WalkItemsMembers(spec: seq<Item>, x: Item)
    ensures x in WalkItems(spec) <==> exists i :: 0 <= i < |spec| && x in WalkChildren(spec[i].items)
  {
    if spec != [] {
      WalkItemsMembers(spec[1..], x);
      if x in WalkItems(spec[1..]) {
        var i :| 0 <= i < |spec[1..]| && x in WalkChildren(spec[1..][i].items);
        assert x in WalkChildren(spec[i + 1].items);
      }
      if exists i :: 0 <= i < |spec| && x in WalkChildren(spec[i].items) {
        var i :| 0 <= i < |spec| && x in WalkChildren(spec[i].items);
        if i > 0 {
          assert x in WalkChildren(spec[1..][i - 1].items);
        }
      }
    }
  }

  /** The number of item nodes reachable in `items`: every item, and the children of every cascade. */
  function NodeCount(items: seq<Item>): nat
    decreases items
  {
    if items == [] then 0
    else 1 + (if IsCascade(items[0]) then NodeCount(items[0].items) else 0) + NodeCount(items[1..])
  }

  /** The walk lists every reachable item node exactly once in length. */
  lemma {:induction false} WalkChildrenLength(items: seq<Item>)
    ensures |WalkChildren(items)| == NodeCount(items)
    decreases items
  {
    if items != [] {
      if IsCascade(items[0]) {
        WalkChildrenLength(items[0].items);
      }
      WalkChildrenLength(items[1..]);
    }
  }

  /** `walk_items` yields as many items as the top-level menus' items reach. */
  lemma {:induction false} WalkItemsLength(spec: seq<Item>)
    ensures |WalkItems(spec)| == TopNodeCount(spec)
  {
    if spec != [] {
      WalkChildrenLength(spec[0].items);
      WalkItemsLength(spec[1..]);
    }
  }

  function TopNodeCount(spec: seq<Item>): nat {
    if spec == [] then 0 else NodeCount(spec[0].items) + TopNodeCount(spec[1..])
  }

  /**
   * The item a path of indices leads to: the first index picks an item of `items`, and every
   * further index picks a child of a cascade.
   */
  function ItemAt(items: seq<Item>, path: seq<nat>): Option<Item>
    decreases path
  {
    if path == [] || path[0] >= |items| then None
    else if |path| == 1 then Some(items[path[0]])
    else if IsCascade(items[path[0]]) then ItemAt(items[path[0]].items, path[1..])
    else None
  }

  lemma {:induction false} WalkChildrenContains(items: seq<Item>, k: nat, x: Item)
    requires k < |items| && x in WalkItem(items[k])
    ensures x in WalkChildren(items)
    decreases k
  {
    if k > 0 {
      WalkChildrenContains(items[1..], k - 1, x);
    }
  }

  /** Every item a path reaches is walked. */
  lemma {:induction false} WalkReachesPaths(items: seq<Item>, path: seq<nat>)
    requires ItemAt(items, path).Some?
    ensures ItemAt(items, path).value in WalkChildren(items)
    decreases path
  {
    var i := path[0];
    if |path| > 1 {
      WalkReachesPaths(items[i].items, path[1..]);
    }
    WalkChildrenContains(items, i, ItemAt(items, path).value);
  }

  /** Every walked item is reached by some path. */
  lemma {:induction false} WalkedAreReachable(items: seq<Item>, x: Item)
    requires x in WalkChildren(items)
    ensures exists path :: ItemAt(items, path) == Some(x)
    decreases items
  {
    var w := WalkItem(items[0]);
    if x in w {
      if x == items[0] {
        assert ItemAt(items, [0]) == Some(x);
      } else {
        assert IsCascade(items[0]) && x in WalkChildren(items[0].items);
        WalkedAreReachable(items[0].items, x);
        var path :| ItemAt(items[0].items, path) == Some(x);
        assert ([0] + path)[1..] == path;
        assert ItemAt(items, [0] + path) == Some(x);
      }
    } else {
      assert x in WalkChildren(items[1..]);
      WalkedAreReachable(items[1..], x);
      var path :| ItemAt(items[1..], path) == Some(x);
      var shifted := [path[0] + 1] + path[1..];
      assert shifted[1..] == path[1..];
      assert ItemAt(items, shifted) == Some(x);
    }
  }

  // ---------------------------------------------------------------------------------------------
  // Actions and icons
  // ---------------------------------------------------------------------------------------------

  /** The action methods of the menu actions object that a string can name. */
  const ActionNames: set<string> := {
    "new_file", "export_csv", "export_pdf", "resize_image", "convert_bw",
    "save", "exit_app", "about", "bold_selection", "load_sample_screen" }

  predicate IsError(h: Handler) {
    h.UnknownActionError? || h.InvalidTypeError?
  }

  /** `resolve_action`: a handler for every kind of action value. */
  function ResolveAction(action: ActionSpec): (h: Handler)
    ensures action.NoAction? <==> h == StatusMessage("No action assigned")
    ensures action.Callable? ==> h == Passed(action.id)
    ensures h.ActionMethod? <==> action.Named? && action.name in ActionNames
    ensures h.ActionMethod? ==> action == Named(h.name)
    ensures IsError(h) <==> action.OtherValue? || (action.Named? && action.name !in ActionNames)
    ensures action.Named? && action.name !in ActionNames ==> h == UnknownActionError(action.name)
  {
    match action
    case NoAction => StatusMessage("No action assigned")
    case Callable(id) => Passed(id)
    case Named(name) => if name in ActionNames then ActionMethod(name) else UnknownActionError(name)
    case OtherValue => InvalidTypeError
  }

  const QuestionMarkKey := "question_mark"
  const QuestionMarkPath := "videos/question_mark.png"

  /** The built-in placeholder icons and their colours. */
  const BuiltinIcons: map<string, Icon> := map[
    "new" := PixelIcon("#2563eb"),
    "save" := PixelIcon("#111827"),
    "exit" := PixelIcon("#ef4444"),
    "export" := PixelIcon("#10b981"),
    "gear" := PixelIcon("#6b7280")]

  /** The image `get_icon` produces for a key it has not cached, given whether the picture file can be read. */
  function LoadIcon(key: string, fileReadable: bool): (img: Option<Icon>)
    ensures img.Some? ==> key in BuiltinIcons || key == QuestionMarkKey
    ensures key in BuiltinIcons ==> img == Some(BuiltinIcons[key])
    ensures key == QuestionMarkKey ==> (img.Some? <==> fileReadable) && (img.Some? ==> img.value == FileImage(QuestionMarkPath))
  {
    if key == QuestionMarkKey then (if fileReadable then Some(FileImage(QuestionMarkPath)) else None)
    else if key in BuiltinIcons then Some(BuiltinIcons[key])
    else None
  }

  // ---------------------------------------------------------------------------------------------
  // Populating a menu
  // ---------------------------------------------------------------------------------------------

  /** `item.get("state", "normal")`. */
  function StateOf(item: Item): string {
    if item.state.Some? then item.state.value else "normal"
  }

  /** Every item that `populate_menu` reaches and that needs a label has one. */
  predicate Labelled(items: seq<Item>)
    decreases items, 1
  {
    forall k :: 0 <= k < |items| ==> LabelledItem(items[k])
  }

  /** A separator, or an item with a label whose children, for a cascade, are labelled. */
  predicate LabelledItem(item: Item)
    decreases item, 0
  {
    KindOf(item) == SeparatorKind || (item.title.Some? && (KindOf(item) == CascadeKind ==> Labelled(item.items)))
  }

  /** The entry `populate_menu` adds for one item. */
  function PopulateItem(item: Item, fileReadable: bool): (r: Result<Entry, MenuError>)
    ensures r.Ok? ==> (r.value.Separator? <==> KindOf(item) == SeparatorKind)
    ensures r.Ok? ==> (r.value.Cascade? <==> KindOf(item) == CascadeKind)
    decreases item, 0
  {
    var kind := KindOf(item);
    if kind == SeparatorKind then Ok(Separator)
    else if kind == CascadeKind then
      match Populate(item.items, fileReadable)
      case Err(e) => Err(e)
      case Ok(sub) => if item.title.None? then Err(MissingLabel) else Ok(Cascade(item.title.value, sub))
    else if item.title.None? then Err(MissingLabel)
    else
      Ok(Command(item.title.value, ResolveAction(item.action), StateOf(item),
                 if Truthy(item.accelerator) then item.accelerator else None,
                 if Truthy(item.iconKey) then LoadIcon(item.iconKey.value, fileReadable) else None))
  }

  /** `populate_menu`: one entry per item, in order, or the error of the first item that fails. */
  function Populate(items: seq<Item>, fileReadable: bool): (r: Result<seq<Entry>, MenuError>)
    ensures r.Ok? ==> |r.value| == |items|
    decreases items, 1
  {
    if items == [] then Ok([])
    else
      match Populate(items[..|items| - 1], fileReadable)
      case Err(e) => Err(e)
      case Ok(entries) =>
        match PopulateItem(items[|items| - 1], fileReadable)
        case Err(e) => Err(e)
        case Ok(entry) => Ok(entries + [entry])
  }

  /**
   * The entry fits its item: a separator for a separator; for a cascade, a submenu with the
   * same label whose entries fit the children one by one; otherwise a command with the same
   * label, the resolved action, the state, the accelerator text when it is truthy, and the icon
   * the key loads when the key is truthy.
   */
  predicate Fits(item: Item, entry: Entry, fileReadable: bool)
    decreases item
  {
    var kind := KindOf(item);
    match entry
    case Separator => kind == SeparatorKind
    case Cascade(title, entries) =>
      kind == CascadeKind && item.title == Some(title) && |entries| == |item.items| &&
      forall k :: 0 <= k < |item.items| ==> Fits(item.items[k], entries[k], fileReadable)
    case Command(title, command, state, accelerator, image) =>
      kind != SeparatorKind && kind != CascadeKind && item.title == Some(title) &&
      command == ResolveAction(item.action) && state == StateOf(item) &&
      accelerator == (if Truthy(item.accelerator) then item.accelerator else None) &&
      image == (if Truthy(item.iconKey) then LoadIcon(item.iconKey.value, fileReadable) else None)
  }

  /** At most one entry fits an item, so `Fits` pins down what populating adds. */
  lemma {:induction false} FitsUnique(item: Item, e1: Entry, e2: Entry, fileReadable: bool)
    requires Fits(item, e1, fileReadable) && Fits(item, e2, fileReadable)
    ensures e1 == e2
    decreases item
  {
    if e1.Cascade? {
      forall k | 0 <= k < |item.items|
        ensures e1.entries[k] == e2.entries[k]
      {
        FitsUnique(item.items[k], e1.entries[k], e2.entries[k], fileReadable);
      }
    }
  }

  /**
   * Populating succeeds exactly when every item reached that needs a label has one, and then it
   * adds one fitting entry per item, in order.
   */
  lemma {:induction false} PopulateCorrect(items: seq<Item>, fileReadable: bool)
    ensures Populate(items, fileReadable).Ok? <==> Labelled(items)
    ensures Populate(items, fileReadable).Ok? ==>
      var entries := Populate(items, fileReadable).value;
      |entries| == |items| && forall k :: 0 <= k < |items| ==> Fits(items[k], entries[k], fileReadable)
    decreases items, 1
  {
    if items != [] {
      var n := |items| - 1;
      var prefix := items[..n];
      PopulateCorrect(prefix, fileReadable);
      PopulateItemCorrect(items[n], fileReadable);
      assert forall k :: 0 <= k < n ==> prefix[k] == items[k];
      LabelledSplit(items);
    }
  }

  lemma {:induction false} PopulateItemCorrect(item: Item, fileReadable: bool)
    ensures PopulateItem(item, fileReadable).Ok? <==> LabelledItem(item)
    ensures PopulateItem(item, fileReadable).Ok? ==> Fits(item, PopulateItem(item, fileReadable).value, fileReadable)
    decreases item, 0
  {
    if KindOf(item) == CascadeKind {
      PopulateCorrect(item.items, fileReadable);
    }
  }

  lemma LabelledSplit(items: seq<Item>)
    requires items != []
    ensures Labelled(items) <==> Labelled(items[..|items| - 1]) && LabelledItem(items[|items| - 1])
  {
    var n := |items| - 1;
    var prefix := items[..n];
    assert forall k :: 0 <= k < n ==> prefix[k] == items[k];
    if Labelled(prefix) && LabelledItem(items[n]) {
      forall k | 0 <= k < |items|
        ensures LabelledItem(items[k])
      {
        if k < n {
          assert LabelledItem(prefix[k]);
        }
      }
    }
  }

  /** Once populating a prefix fails, populating the whole list fails too. */
  lemma {:induction false} PopulatePrefixFails(items: seq<Item>, i: nat, fileReadable: bool)
    requires i <= |items| && Populate(items[..i], fileReadable).Err?
    ensures Populate(items, fileReadable).Err?
    decreases |items| - i
  {
    if i < |items| {
      assert items[..i + 1][..i] == items[..i];
      PopulatePrefixFails(items, i + 1, fileReadable);
    } else {
      assert items[..i] == items;
    }
  }

  /** The cascade `build_menu_bar` adds for one top-level menu; its label is read before its items are populated. */
  function TopEntry(top: Item, fileReadable: bool): Result<Entry, MenuError> {
    if top.title.None? then Err(MissingLabel)
    else
      match Populate(top.items, fileReadable)
      case Err(e) => Err(e)
      case Ok(entries) => Ok(Cascade(top.title.value, entries))
  }

  /**
   * The cascades `build_menu_bar` attaches to the new menu bar, and the error that stopped it,
   * if any: a failing top-level menu is never attached, and nothing after it is built.
   */
  function BuildBar(spec: seq<Item>, fileReadable: bool): BarOutcome {
    if spec == [] then BarOutcome([], None)
    else
      var prior := BuildBar(spec[..|spec| - 1], fileReadable);
      if prior.err.Some? then prior
      else
        match TopEntry(spec[|spec| - 1], fileReadable)
        case Err(e) => BarOutcome(prior.bar, Some(e))
        case Ok(entry) => BarOutcome(prior.bar + [entry], None)
  }

  /** Building one more menu: nothing happens after a failure, otherwise the menu is attached or fails. */
  lemma BuildBarNext(spec: seq<Item>, i: nat, fileReadable: bool)
    requires i < |spec|
    ensures var prior := BuildBar(spec[..i], fileReadable);
      BuildBar(spec[..i + 1], fileReadable) ==
        if prior.err.Some? then prior
        else match TopEntry(spec[i], fileReadable)
          case Err(e) => BarOutcome(prior.bar, Some(e))
          case Ok(entry) => BarOutcome(prior.bar + [entry], None)
  {
    assert spec[..i + 1][..i] == spec[..i] && spec[..i + 1][i] == spec[i];
  }

  /** The cascades attached to a menu bar and the error that stopped building it, if any. */
  datatype BarOutcome = BarOutcome(bar: seq<Entry>, err: Option<MenuError>)

  /** Once building a prefix of the menus fails, building all of them ends in the same state. */
  lemma {:induction false} BuildBarStops(spec: seq<Item>, i: nat, fileReadable: bool)
    requires i <= |spec| && BuildBar(spec[..i], fileReadable).err.Some?
    ensures BuildBar(spec, fileReadable) == BuildBar(spec[..i], fileReadable)
    decreases |spec| - i
  {
    if i < |spec| {
      assert spec[..i + 1][..i] == spec[..i];
      BuildBarStops(spec, i + 1, fileReadable);
    } else {
      assert spec[..i] == spec;
    }
  }

  /**
   * Building succeeds exactly when every top-level menu has a label and labelled items; it then
   * attaches one cascade per menu.  Otherwise it attaches the cascades of the menus before the
   * first failing one.
   */
  lemma BuildBarCorrect(spec: seq<Item>, fileReadable: bool)
    ensures var BarOutcome(bar, err) := BuildBar(spec, fileReadable);
      (err.None? <==> forall i :: 0 <= i < |spec| ==> spec[i].title.Some? && Labelled(spec[i].items)) &&
      (err.None? ==> |bar| == |spec|) &&
      (err.Some? ==> |bar| < |spec| && TopEntry(spec[|bar|], fileReadable).Err?) &&
      forall i :: 0 <= i < |bar| ==> TopEntry(spec[i], fileReadable) == Ok(bar[i])
  {
    BuildBarEntries(spec, fileReadable);
    forall i | 0 <= i < |spec|
      ensures TopEntry(spec[i], fileReadable).Ok? <==> spec[i].title.Some? && Labelled(spec[i].items)
    {
      TopEntryCorrect(spec[i], fileReadable);
    }
  }

  /** A top-level menu yields its cascade exactly when it has a label and labelled items. */
  lemma TopEntryCorrect(top: Item, fileReadable: bool)
    ensures TopEntry(top, fileReadable).Ok? <==> top.title.Some? && Labelled(top.items)
  {
    PopulateCorrect(top.items, fileReadable);
  }

  /**
   * `o` holds the cascades of the menus before the first one that fails, and stops there: it has
   * no error exactly when every menu yields its cascade.
   */
  ghost predicate StopsAtFirstFailure(spec: seq<Item>, fileReadable: bool, o: BarOutcome) {
    (o.err.None? <==> forall i :: 0 <= i < |spec| ==> TopEntry(spec[i], fileReadable).Ok?) &&
    (o.err.None? ==> |o.bar| == |spec|) &&
    (o.err.Some? ==> |o.bar| < |spec| && TopEntry(spec[|o.bar|], fileReadable).Err?) &&
    forall i :: 0 <= i < |o.bar| ==> TopEntry(spec[i], fileReadable) == Ok(o.bar[i])
  }

  /** The menu bar holds the cascades of the menus before the first one that fails, and stops there. */
  lemma BuildBarEntries(spec: seq<Item>, fileReadable: bool)
    ensures StopsAtFirstFailure(spec, fileReadable, BuildBar(spec, fileReadable))
  {
    var o := BuildBar(spec, fileReadable);
    BuildBarLength(spec, fileReadable);
    BuildBarPrefix(spec, fileReadable);
    if o.err.Some? {
      assert !TopEntry(spec[|o.bar|], fileReadable).Ok?;
    }
  }

  /** Without an error every menu is attached; otherwise the menu after the attached ones failed. */
  lemma {:induction false} BuildBarLength(spec: seq<Item>, fileReadable: bool)
    ensures var o := BuildBar(spec, fileReadable);
      (o.err.None? ==> |o.bar| == |spec|) &&
      (o.err.Some? ==> |o.bar| < |spec| && TopEntry(spec[|o.bar|], fileReadable).Err?)
  {
    if spec != [] {
      var n := |spec| - 1;
      var prefix := spec[..n];
      BuildBarLength(prefix, fileReadable);
      var prior := BuildBar(prefix, fileReadable);
      if prior.err.Some? {
        assert spec[|prior.bar|] == prefix[|prior.bar|];
      }
    }
  }

  /** The attached cascades are those of the first menus, in order. */
  lemma {:induction false} BuildBarPrefix(spec: seq<Item>, fileReadable: bool)
    ensures var o := BuildBar(spec, fileReadable);
      |o.bar| <= |spec| && forall i :: 0 <= i < |o.bar| ==> TopEntry(spec[i], fileReadable) == Ok(o.bar[i])
  {
    if spec != [] {
      var n := |spec| - 1;
      var prefix := spec[..n];
      BuildBarPrefix(prefix, fileReadable);
      BuildBarLength(prefix, fileReadable);
      var prior := BuildBar(prefix, fileReadable);
      assert forall i :: 0 <= i < |prior.bar| ==> spec[i] == prefix[i];
      if prior.err.None? {
        assert |prior.bar| == n;
      }
    }
  }

  // ---------------------------------------------------------------------------------------------
  // Key bindings
  // ---------------------------------------------------------------------------------------------

  /** The (key sequence, handler) pairs `bind_accelerators` registers for the walked items, in order. */
  function Bindings(walked: seq<Item>): (r: seq<(string, Handler)>)
    ensures |r| <= |walked|
  {
    if walked == [] then []
    else
      var last := walked[|walked| - 1];
      Bindings(walked[..|walked| - 1]) + if Truthy(last.bind) then [(last.bind.value, ResolveAction(last.action))] else []
  }

  /** A pair is registered exactly when some walked item has that non-empty key sequence and that action. */
  lemma {:induction false} BindingsMembers(walked: seq<Item>)
    ensures forall p :: p in Bindings(walked) <==>
      exists x :: x in walked && Truthy(x.bind) && p == (x.bind.value, ResolveAction(x.action))
  {
    if walked != [] {
      var n := |walked| - 1;
      assert walked == walked[..n] + [walked[n]];
      BindingsMembers(walked[..n]);
    }
  }

  /** The bindings registered one after the other: a later binding of the same key replaces an earlier one. */
  function BindAll(m: map<string, Handler>, bindings: seq<(string, Handler)>): (r: map<string, Handler>)
    ensures r.Keys == m.Keys + set b | b in bindings :: b.0
  {
    if bindings == [] then m
    else
      var last := bindings[|bindings| - 1];
      BindAll(m, bindings[..|bindings| - 1])[last.0 := last.1]
  }

  /** The handler of the last binding of `key`, if any. */
  function LastBinding(bindings: seq<(string, Handler)>, key: string): Option<Handler> {
    if bindings == [] then None
    else if bindings[|bindings| - 1].0 == key then Some(bindings[|bindings| - 1].1)
    else LastBinding(bindings[..|bindings| - 1], key)
  }

  /** After binding, a key is bound to the handler of its last binding, or keeps what it had. */
  lemma {:induction false} BindAllLookup(m: map<string, Handler>, bindings: seq<(string, Handler)>, key: string)
    ensures key in BindAll(m, bindings) <==> key in m || LastBinding(bindings, key).Some?
    ensures LastBinding(bindings, key).Some? ==> BindAll(m, bindings)[key] == LastBinding(bindings, key).value
    ensures LastBinding(bindings, key).None? && key in m ==> BindAll(m, bindings)[key] == m[key]
  {
    if bindings != [] {
      BindAllLookup(m, bindings[..|bindings| - 1], key);
    }
  }

  /** `LastBinding` finds a binding of the key that no later binding overrides, and none when the key is never bound. */
  lemma {:induction false} LastBindingIsLast(bindings: seq<(string, Handler)>, key: string)
    ensures LastBinding(bindings, key).None? <==> forall k :: 0 <= k < |bindings| ==> bindings[k].0 != key
    ensures forall k :: 0 <= k < |bindings| && bindings[k].0 == key && (forall j :: k < j < |bindings| ==> bindings[j].0 != key) ==>
      LastBinding(bindings, key) == Some(bindings[k].1)
  {
    if bindings != [] {
      var n := |bindings| - 1;
      var prefix := bindings[..n];
      LastBindingIsLast(prefix, key);
      assert forall k :: 0 <= k < n ==> prefix[k] == bindings[k];
    }
  }

  /** Registering one more binding. */
  lemma BindAllSnoc(m: map<string, Handler>, bindings: seq<(string, Handler)>, p: (string, Handler))
    ensures BindAll(m, bindings + [p]) == BindAll(m, bindings)[p.0 := p.1]
  {
    assert (bindings + [p])[..|bindings|] == bindings;
  }

  /** Binding the walked items one by one: the next item adds its binding, if it has one, to the map so far. */
  lemma BindNext(m: map<string, Handler>, walked: seq<Item>, i: nat)
    requires i < |walked|
    ensures var x := walked[i];
      BindAll(m, Bindings(walked[..i + 1])) ==
        if Truthy(x.bind) then BindAll(m, Bindings(walked[..i]))[x.bind.value := ResolveAction(x.action)]
        else BindAll(m, Bindings(walked[..i]))
  {
    var x := walked[i];
    assert walked[..i + 1] == walked[..i] + [x];
    BindingsSnoc(walked[..i], x);
    if Truthy(x.bind) {
      BindAllSnoc(m, Bindings(walked[..i]), (x.bind.value, ResolveAction(x.action)));
    } else {
      assert Bindings(walked[..i + 1]) == Bindings(walked[..i]);
    }
  }

  /** Walking one more item registers its binding, if it has one. */
  lemma BindingsSnoc(walked: seq<Item>, x: Item)
    ensures Bindings(walked + [x]) == Bindings(walked) + if Truthy(x.bind) then [(x.bind.value, ResolveAction(x.action))] else []
  {
    assert (walked + [x])[..|walked|] == walked;
  }

  /** What `bind_accelerators` does to the bindings `m` for the specification `spec`. */
  function Accelerators(m: map<string, Handler>, spec: seq<Item>): map<string, Handler> {
    BindAll(m, Bindings(WalkItems(spec)))
  }

  // ---------------------------------------------------------------------------------------------
  // The default specification
  // ---------------------------------------------------------------------------------------------

  function CommandItem(title: string, action: string, iconKey: Option<string>, accelerator: Option<string>, bind: Option<string>): Item {
    Item(None, Some(title), Named(action), iconKey, accelerator, bind, None, [])
  }

  function SeparatorItem(): Item {
    Item(Some(SeparatorKind), None, NoAction, None, None, None, None, [])
  }

  function CascadeItem(title: string, items: seq<Item>, iconKey: string): Item {
    Item(Some(CascadeKind), Some(title), NoAction, Some(iconKey), None, None, None, items)
  }

  function TopMenu(title: string, items: seq<Item>): Item {
    Item(None, Some(title), NoAction, None, None, None, None, items)
  }

  /** `default_spec`: File (with the Export and Image Options submenus), Edit and Help. */
  function DefaultSpec(): seq<Item> {
    [TopMenu("File", FileItems()), TopMenu("Edit", EditItems()), TopMenu("Help", HelpItems())]
  }

  function FileItems(): seq<Item> {
    [ CommandItem("New File", "new_file", Some("new"), Some("Ctrl+N"), Some("<Control-n>")),
      SeparatorItem(),
      CascadeItem("Export", ExportItems(), "export"),
      SeparatorItem(),
      CommandItem("Load Sample Screen", "load_sample_screen", Some("question_mark"), None, None),
      SeparatorItem(),
      CommandItem("Save", "save", Some("save"), Some("Ctrl+S"), Some("<Control-s>")),
      SeparatorItem(),
      CommandItem("Exit", "exit_app", Some("exit"), None, None) ]
  }

  function ExportItems(): seq<Item> {
    [ CommandItem("Export as CSV", "export_csv", None, None, None),
      CommandItem("Export as PDF", "export_pdf", None, None, None),
      CascadeItem("Image Options", ImageOptionsItems(), "gear") ]
  }

  function ImageOptionsItems(): seq<Item> {
    [ CommandItem("Resize Image", "resize_image", None, None, None),
      CommandItem("Convert to B/W", "convert_bw", None, None, None) ]
  }

  function EditItems(): seq<Item> {
    [CommandItem("Bold", "bold_selection", None, Some("Ctrl+B"), Some("<Control-b>"))]
  }

  function HelpItems(): seq<Item> {
    [CommandItem("About", "about", None, None, None)]
  }

  /** A list without cascades walks to itself. */
  lemma {:induction false} FlatWalk(items: seq<Item>)
    requires forall k :: 0 <= k < |items| ==> !IsCascade(items[k])
    ensures WalkChildren(items) == items
  {
    if items != [] {
      FlatWalk(items[1..]);
      assert items == [items[0]] + items[1..];
    }
  }

  lemma {:induction false} WalkChildrenAppend(a: seq<Item>, b: seq<Item>)
    ensures WalkChildren(a + b) == WalkChildren(a) + WalkChildren(b)
  {
    if a != [] {
      WalkChildrenAppend(a[1..], b);
      WalkChildrenCons(a, b);
      ConcatAssociative(WalkItem(a[0]), WalkChildren(a[1..]), WalkChildren(b));
    } else {
      ConcatEmpty(a, b);
      ConcatEmpty(WalkChildren(a), WalkChildren(b));
    }
  }

  /** The walk of a non-empty list starts with the walk of its first item. */
  lemma WalkChildrenCons(a: seq<Item>, b: seq<Item>)
    requires a != []
    ensures WalkChildren(a + b) == WalkItem(a[0]) + WalkChildren(a[1..] + b)
    ensures WalkChildren(a) == WalkItem(a[0]) + WalkChildren(a[1..])
  {
    assert (a + b)[0] == a[0] && (a + b)[1..] == a[1..] + b;
  }

  lemma ConcatAssociative<T>(x: seq<T>, y: seq<T>, z: seq<T>)
    ensures x + (y + z) == (x + y) + z
  {
  }

  lemma ConcatEmpty<T>(x: seq<T>, y: seq<T>)
    requires x == []
    ensures x + y == y
  {
  }

  lemma {:induction false} BindingsAppend(a: seq<Item>, b: seq<Item>)
    ensures Bindings(a + b) == Bindings(a) + Bindings(b)
    decreases |b|
  {
    if b != [] {
      var n := |b| - 1;
      var last := b[n];
      var tail := if Truthy(last.bind) then [(last.bind.value, ResolveAction(last.action))] else [];
      assert (a + b)[..|a + b| - 1] == a + b[..n];
      assert (a + b)[|a + b| - 1] == last;
      assert Bindings(a + b) == Bindings(a + b[..n]) + tail;
      assert Bindings(b) == Bindings(b[..n]) + tail;
      BindingsAppend(a, b[..n]);
    } else {
      assert a + b == a;
    }
  }

  /** A list whose only cascade is at `i` walks to itself with the walk of that cascade's children spliced in after it. */
  lemma {:induction false} OneCascadeWalk(items: seq<Item>, i: nat, inner: seq<Item>)
    requires i < |items| && IsCascade(items[i]) && WalkChildren(items[i].items) == inner
    requires forall k :: 0 <= k < |items| && k != i ==> !IsCascade(items[k])
    ensures WalkChildren(items) == items[..i + 1] + inner + items[i + 1..]
  {
    var rest := items[1..];
    assert WalkChildren(items) == WalkItem(items[0]) + WalkChildren(rest);
    if i == 0 {
      assert forall k :: 0 <= k < |rest| ==> !IsCascade(rest[k]) by {
        assert forall k :: 0 <= k < |rest| ==> rest[k] == items[k + 1];
      }
      FlatWalk(rest);
      HeadCascadeWalk(items, inner);
    } else {
      assert forall k :: 0 <= k < |rest| && k != i - 1 ==> !IsCascade(rest[k]) by {
        assert forall k :: 0 <= k < |rest| ==> rest[k] == items[k + 1];
      }
      assert rest[i - 1] == items[i];
      OneCascadeWalk(rest, i - 1, inner);
      HeadFlatWalk(items, i, inner);
    }
  }

  lemma HeadCascadeWalk(items: seq<Item>, inner: seq<Item>)
    requires |items| > 0 && IsCascade(items[0]) && WalkChildren(items[0].items) == inner
    requires WalkChildren(items) == WalkItem(items[0]) + WalkChildren(items[1..])
    requires WalkChildren(items[1..]) == items[1..]
    ensures WalkChildren(items) == items[..1] + inner + items[1..]
  {
    assert WalkItem(items[0]) == [items[0]] + inner;
    SingleHead(items);
  }

  lemma SingleHead<T>(s: seq<T>)
    requires |s| > 0
    ensures s[..1] == [s[0]]
  {
  }

  lemma HeadFlatWalk(items: seq<Item>, i: nat, inner: seq<Item>)
    requires 0 < i < |items| && !IsCascade(items[0])
    requires WalkChildren(items) == WalkItem(items[0]) + WalkChildren(items[1..])
    requires WalkChildren(items[1..]) == items[1..][..i] + inner + items[1..][i..]
    ensures WalkChildren(items) == items[..i + 1] + inner + items[i + 1..]
  {
    assert WalkItem(items[0]) == [items[0]];
    SpliceAfterHead(items, i, inner);
  }

  lemma SpliceAfterHead<T>(s: seq<T>, i: nat, inner: seq<T>)
    requires 0 < i < |s|
    ensures [s[0]] + (s[1..][..i] + inner + s[1..][i..]) == s[..i + 1] + inner + s[i + 1..]
  {
    var r := s[1..];
    assert s[..i + 1] == [s[0]] + r[..i];
    assert s[i + 1..] == r[i..];
    ConcatAssociative([s[0]], r[..i] + inner, r[i..]);
    ConcatAssociative([s[0]], r[..i], inner);
  }

  lemma ExportWalk()
    ensures WalkChildren(ExportItems()) == ExportItems() + ImageOptionsItems()
  {
    FlatWalk(ImageOptionsItems());
    OneCascadeWalk(ExportItems(), 2, ImageOptionsItems());
  }

  lemma FileWalk()
    ensures WalkChildren(FileItems()) == FileItems()[..3] + (ExportItems() + ImageOptionsItems()) + FileItems()[3..]
  {
    ExportWalk();
    OneCascadeWalk(FileItems(), 2, ExportItems() + ImageOptionsItems());
  }

  /** The default menus walk, in preorder, to sixteen items. */
  lemma DefaultWalkLength()
    ensures |WalkItems(DefaultSpec())| == 16
  {
    DefaultWalk();
    PartLengths();
  }

  lemma PartLengths()
    ensures |FileItems()| == 9 && |ExportItems()| == 3 && |ImageOptionsItems()| == 2
    ensures |FileItems()[..3]| == 3 && |FileItems()[3..]| == 6
    ensures |EditItems()| == 1 && |HelpItems()| == 1
  {
  }

  /** The default menus walk in preorder: File's items with Export's and Image Options' after their cascades, then Edit's and Help's. */
  lemma DefaultWalk()
    ensures WalkItems(DefaultSpec()) ==
      FileItems()[..3] + ExportItems() + ImageOptionsItems() + FileItems()[3..] + EditItems() + HelpItems()
  {
    FileWalk();
    EditWalk();
    HelpWalk();
    Regroup(FileItems()[..3], ExportItems(), ImageOptionsItems(), FileItems()[3..]);
    WalkThreeMenus(DefaultSpec(), FileItems()[..3] + ExportItems() + ImageOptionsItems() + FileItems()[3..], EditItems(), HelpItems());
  }

  lemma EditWalk()
    ensures WalkChildren(EditItems()) == EditItems()
  {
    FlatWalk(EditItems());
  }

  lemma HelpWalk()
    ensures WalkChildren(HelpItems()) == HelpItems()
  {
    FlatWalk(HelpItems());
  }

  lemma Regroup<T>(a: seq<T>, b: seq<T>, c: seq<T>, d: seq<T>)
    ensures a + (b + c) + d == a + b + c + d
  {
  }

  lemma WalkThreeMenus(spec: seq<Item>, p: seq<Item>, q: seq<Item>, r: seq<Item>)
    requires |spec| == 3
    requires WalkChildren(spec[0].items) == p && WalkChildren(spec[1].items) == q && WalkChildren(spec[2].items) == r
    ensures WalkItems(spec) == p + q + r
  {
    var s1 := spec[1..];
    var s2 := s1[1..];
    assert s2[1..] == [];
    WalkItemsStep(s2, r);
    WalkItemsStep(s1, q);
    WalkItemsStep(spec, p);
    ConcatAssociative(p, q, r + []);
    assert r + [] == r;
  }

  /** The walk of the top-level menus starts with the walk of the first menu's items. */
  lemma WalkItemsStep(spec: seq<Item>, head: seq<Item>)
    requires spec != [] && WalkChildren(spec[0].items) == head
    ensures WalkItems(spec) == head + WalkItems(spec[1..])
  {
  }

  lemma {:induction false} BindingsNone(items: seq<Item>)
    requires forall k :: 0 <= k < |items| ==> items[k].bind == None
    ensures Bindings(items) == []
  {
    if items != [] {
      var n := |items| - 1;
      assert forall k :: 0 <= k < n ==> items[..n][k] == items[k];
      BindingsNone(items[..n]);
    }
  }

  lemma BindingsOfFile()
    ensures Bindings(FileItems()[..3]) == [("<Control-n>", ActionMethod("new_file"))]
    ensures Bindings(FileItems()[3..]) == [("<Control-s>", ActionMethod("save"))]
  {
    BindingsOne(FileItems()[..3], 0);
    BindingsOne(FileItems()[3..], 3);
  }

  /** A list in which only the item at `j` has a key sequence registers that one binding. */
  lemma {:induction false} BindingsOne(w: seq<Item>, j: nat)
    requires j < |w| && Truthy(w[j].bind)
    requires forall k :: 0 <= k < |w| && k != j ==> w[k].bind == None
    ensures Bindings(w) == [(w[j].bind.value, ResolveAction(w[j].action))]
  {
    var n := |w| - 1;
    var init := w[..n];
    assert forall k :: 0 <= k < n ==> init[k] == w[k];
    if j == n {
      BindingsNone(init);
    } else {
      BindingsOne(init, j);
    }
  }

  lemma BindingsOfOthers()
    ensures Bindings(ExportItems()) == [] && Bindings(ImageOptionsItems()) == [] && Bindings(HelpItems()) == []
    ensures Bindings(EditItems()) == [("<Control-b>", ActionMethod("bold_selection"))]
  {
    BindingsNone(ExportItems());
    BindingsNone(ImageOptionsItems());
    BindingsNone(HelpItems());
    assert EditItems()[..0] == [];
  }

  /**
   * In the default menus exactly New File, Save and Bold carry a key binding: Ctrl+N runs
   * `new_file`, Ctrl+S runs `save` and Ctrl+B runs `bold_selection`.
   */
  lemma DefaultBindings()
    ensures Bindings(WalkItems(DefaultSpec())) ==
      [("<Control-n>", ActionMethod("new_file")), ("<Control-s>", ActionMethod("save")), ("<Control-b>", ActionMethod("bold_selection"))]
  {
    DefaultWalk();
    BindingsOfFile();
    BindingsOfOthers();
    BindingsOfParts(FileItems()[..3], ExportItems(), ImageOptionsItems(), FileItems()[3..], EditItems(), HelpItems());
  }

  lemma BindingsOfParts(a: seq<Item>, b: seq<Item>, c: seq<Item>, d: seq<Item>, e: seq<Item>, f: seq<Item>)
    requires |Bindings(a)| == 1 && Bindings(b) == [] && Bindings(c) == [] && |Bindings(d)| == 1 && |Bindings(e)| == 1 && Bindings(f) == []
    ensures Bindings(a + b + c + d + e + f) == [Bindings(a)[0], Bindings(d)[0], Bindings(e)[0]]
  {
    BindingsAppend(a + b + c + d + e, f);
    BindingsAppend(a + b + c + d, e);
    BindingsAppend(a + b + c, d);
    BindingsAppend(a + b, c);
    BindingsAppend(a, b);
  }
}
