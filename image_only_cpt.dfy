/**
 * The admin-screen behaviour of the `HHS_Image_Only_CPT` class for the image-only
 * `slide` post type: the two relabelling filters, the list-table column set, and the
 * list-table cell with its row actions (edit / restore / trash / delete permanently).
 *
 * Everything WordPress computes is an input: the post's type, status and whether it
 * has a thumbnail (`Post`), the results of `current_user_can` (`Capabilities`), and
 * the link builders, the translation function, the thumbnail markup and the
 * `EMPTY_TRASH_DAYS` constant (`Host`). Output that the source `echo`es is returned.
 */
module ImageOnlyCpt {
  import opened Options
  import opened PhpArray
  import opened PhpString

  const SlidePostType := "slide"
  const TextDomain := "textdomain"
  /** The text domain `__()` uses when none is given. */
  const DefaultDomain := "default"

  /** `get_post_type()` answered `slide` (it answers false, here None, for no post). */
  predicate IsSlide(postType: Option<string>)
  {
    postType == Some(SlidePostType)
  }

  // ---------------------------------------------------------------------------
  // admin_post_thumbnail_html

  const SetFeaturedImage := "Set featured image"
  const SelectSlideImage := "Select / Upload a slide image"
  const RemoveFeaturedImage := "Remove featured image"
  const RemoveSlideImage := "Remove slide image"

  /** No copy of "Set featured image" can overlap the new set label. */
  lemma SetLabelIsolated()
    ensures Isolated(SetFeaturedImage, SelectSlideImage)
  {
    assert SetFeaturedImage[2] != SelectSlideImage[2];
  }

  /** No copy of "Set featured image" can overlap the new remove label. */
  lemma SetLabelIsolatedFromRemove()
    ensures Isolated(SetFeaturedImage, RemoveSlideImage)
  {
    assert SetFeaturedImage[0] != RemoveSlideImage[0];
  }

  /** No copy of "Remove featured image" can overlap the new remove label. */
  lemma RemoveLabelIsolated()
    ensures Isolated(RemoveFeaturedImage, RemoveSlideImage)
  {
    assert RemoveFeaturedImage[7] != RemoveSlideImage[7];
  }

  /**
   * The inner HTML of the featured-image box: for a slide, "Set featured image" and
   * then "Remove featured image" are replaced by the slide labels, so neither default
   * label is left; for any other post type the markup passes through untouched.
   */
  function AdminPostThumbnailHtml(output: string, postType: Option<string>): (r: string)
    ensures !IsSlide(postType) ==> r == output
    ensures IsSlide(postType) ==> !Occurs(SetFeaturedImage, r) && !Occurs(RemoveFeaturedImage, r)
    ensures !Occurs(SetFeaturedImage, output) && !Occurs(RemoveFeaturedImage, output) ==> r == output
  {
    if IsSlide(postType) then
      SetLabelIsolated();
      SetLabelIsolatedFromRemove();
      RemoveLabelIsolated();
      ReplaceTwiceRemovesBoth(output, SetFeaturedImage, SelectSlideImage, RemoveFeaturedImage, RemoveSlideImage);
      var relabelled := ReplaceAll(output, SetFeaturedImage, SelectSlideImage);
      var r := ReplaceAll(relabelled, RemoveFeaturedImage, RemoveSlideImage);
      assert !Occurs(SetFeaturedImage, output) && !Occurs(RemoveFeaturedImage, output) ==> r == output by {
        if !Occurs(SetFeaturedImage, output) && !Occurs(RemoveFeaturedImage, output) {
          ReplaceTwiceUnchanged(output, SetFeaturedImage, SelectSlideImage, RemoveFeaturedImage, RemoveSlideImage);
        }
      }
      r
    else
      output
  }

  // ---------------------------------------------------------------------------
  // media_view_strings

  const SetFeaturedImageTitleKey := "setFeaturedImageTitle"
  const SetFeaturedImageKey := "setFeaturedImage"

  /**
   * The media modal's strings: for a slide, both featured-image strings read the
   * translated "Set slide image"; no other key changes, keys already present keep
   * their order, and for any other post type the array is returned as given.
   */
  function MediaViewStrings(strings: Assoc, postType: Option<string>,
                            translate: (string, string) -> string): (r: Assoc)
    ensures !IsSlide(postType) ==> r == strings
    ensures IsSlide(postType) ==>
      && Lookup(r, SetFeaturedImageTitleKey) == Some(translate("Set slide image", TextDomain))
      && Lookup(r, SetFeaturedImageKey) == Some(translate("Set slide image", TextDomain))
    ensures forall k :: k != SetFeaturedImageTitleKey && k != SetFeaturedImageKey ==>
      Lookup(r, k) == Lookup(strings, k)
    ensures Keys(strings) <= Keys(r) && |r| <= |strings| + 2
    ensures DistinctKeys(strings) ==> DistinctKeys(r)
  {
    if IsSlide(postType) then
      var slideLabel := translate("Set slide image", TextDomain);
      var titled := Assign(strings, SetFeaturedImageTitleKey, slideLabel);
      AssignKeepsKeysDistinct(strings, SetFeaturedImageTitleKey, slideLabel);
      AssignKeepsKeysDistinct(titled, SetFeaturedImageKey, slideLabel);
      Assign(titled, SetFeaturedImageKey, slideLabel)
    else
      strings
  }

  // ---------------------------------------------------------------------------
  // manage_edit_columns

  /**
   * The list table's columns: exactly the checkbox column and the thumbnail column,
   * in that order, whatever columns WordPress proposed.
   */
  function ManageEditColumns(columns: Assoc, translate: (string, string) -> string): (r: Assoc)
    ensures Keys(r) == ["cb", "thumbnail"] && DistinctKeys(r)
    ensures Lookup(r, "cb") == Some("<input type=\"checkbox\" />")
    ensures Lookup(r, "thumbnail") == Some(translate("Slide", TextDomain))
  {
    [Entry("cb", "<input type=\"checkbox\" />"), Entry("thumbnail", translate("Slide", TextDomain))]
  }

  // ---------------------------------------------------------------------------
  // custom_edit_columns: inputs

  /** What WordPress reports about the post of a list-table row. */
  datatype Post = Post(id: nat, postType: string, status: string, hasThumbnail: bool)

  /** `current_user_can` for the post type's edit_post and delete_post capabilities on this post. */
  datatype Capabilities = Capabilities(editPost: bool, deletePost: bool)

  /** The WordPress functions and constants the cell is built from. */
  datatype Host = Host(
    translate: (string, string) -> string,    // __( text, domain )
    thumbnail: nat -> string,                 // output of the_post_thumbnail( $post_id )
    editPostLink: nat -> string,              // get_edit_post_link( $post_id, true )
    deletePostLink: (nat, bool) -> string,    // get_delete_post_link( $post_id, '', $force_delete )
    editLinkTemplate: string,                 // $post_type_object->_edit_link
    sprintf: (string, nat) -> string,         // sprintf( $format, $post_id )
    adminUrl: string -> string,               // admin_url( $path )
    nonceUrl: (string, string) -> string,     // wp_nonce_url( $url, $action )
    emptyTrashDays: int)                      // EMPTY_TRASH_DAYS

  const TrashStatus := "trash"

  /** EMPTY_TRASH_DAYS is truthy: trashed posts are kept before being purged. */
  predicate TrashRetention(emptyTrashDays: int)
  {
    emptyTrashDays != 0
  }

  // ---------------------------------------------------------------------------
  // custom_edit_columns: the row-action policy

  /** The order in which the source considers the actions. */
  const ActionOrder := ["edit", "untrash", "trash", "delete"]

  /** The position of an action key in ActionOrder. */
  function Rank(key: string): nat
  {
    if key == "edit" then 0 else if key == "untrash" then 1 else if key == "trash" then 2 else 3
  }

  /** Whether the action `key` is offered, decided for each key on its own. */
  predicate Offered(key: string, status: string, caps: Capabilities, retention: bool)
  {
    var trashed := status == TrashStatus;
    if key == "edit" then caps.editPost && !trashed
    else if key == "untrash" then caps.deletePost && trashed
    else if key == "trash" then caps.deletePost && !trashed && retention
    else if key == "delete" then caps.deletePost && (trashed || !retention)
    else false
  }

  /** The keys of the offered actions, in ActionOrder. */
  function OfferedKeys(status: string, caps: Capabilities, retention: bool): seq<string>
  {
    (if Offered("edit", status, caps, retention) then ["edit"] else [])
    + (if Offered("untrash", status, caps, retention) then ["untrash"] else [])
    + (if Offered("trash", status, caps, retention) then ["trash"] else [])
    + (if Offered("delete", status, caps, retention) then ["delete"] else [])
  }

  /**
   * The row-action policy. A trashed post is never editable; without the delete
   * capability nothing can be trashed, restored or deleted; a trashed post can be
   * restored and deleted permanently; a live post can be trashed when trash retention
   * is on and deleted permanently when it is off, never both. At most three actions
   * are offered, in ActionOrder.
   */
  lemma OfferedKeysPolicy(status: string, caps: Capabilities, retention: bool)
    ensures var ks := OfferedKeys(status, caps, retention);
      && ("edit" in ks <==> caps.editPost && status != TrashStatus)
      && (!caps.deletePost ==> "untrash" !in ks && "trash" !in ks && "delete" !in ks)
      && (caps.deletePost && status == TrashStatus ==> "untrash" in ks && "delete" in ks && "trash" !in ks)
      && (caps.deletePost && status != TrashStatus ==>
            "untrash" !in ks && ("trash" in ks <==> retention) && ("delete" in ks <==> !retention))
      && (forall k :: k in ks ==> k in ActionOrder)
      && |ks| <= 3
      && forall i, j :: 0 <= i < j < |ks| ==> Rank(ks[i]) < Rank(ks[j])
  {
  }

  /** The keys the delete capability adds, for a post of this status. */
  function DeleteCapabilityKeys(status: string, retention: bool): seq<string>
  {
    if status == TrashStatus then ["untrash", "delete"]
    else if retention then ["trash"]
    else ["delete"]
  }

  /** The offered keys, case by case as the source's nested conditions decide them. */
  lemma OfferedKeysByCase(status: string, caps: Capabilities, retention: bool)
    ensures OfferedKeys(status, caps, retention)
      == (if caps.editPost && status != TrashStatus then ["edit"] else [])
         + (if caps.deletePost then DeleteCapabilityKeys(status, retention) else [])
  {
  }

  // ---------------------------------------------------------------------------
  // custom_edit_columns: the links

  function EditLink(post: Post, host: Host): string
  {
    "<a href=\"" + host.editPostLink(post.id) + "\">" + host.translate("Edit", DefaultDomain) + "</a>"
  }

  /** The nonce action of the restore link: `untrash-<post type>_<post id>`. */
  function UntrashNonceAction(postType: string, id: nat): string
  {
    "untrash-" + postType + "_" + Decimal(id)
  }

  function UntrashLink(post: Post, host: Host): string
  {
    var path := host.sprintf(host.editLinkTemplate + "&amp;action=untrash", post.id);
    "<a href=\"" + host.nonceUrl(host.adminUrl(path), UntrashNonceAction(post.postType, post.id))
      + "\">" + host.translate("Restore", DefaultDomain) + "</a>"
  }

  function TrashLink(post: Post, host: Host): string
  {
    "<a class=\"submitdelete\" href=\"" + host.deletePostLink(post.id, false) + "\">"
      + host.translate("Trash", DefaultDomain) + "</a>"
  }

  function DeleteLink(post: Post, host: Host): string
  {
    "<a class=\"submitdelete\" href=\"" + host.deletePostLink(post.id, true) + "\">"
      + host.translate("Delete Permanently", DefaultDomain) + "</a>"
  }

  /** The link markup for action `key`. */
  function ActionLink(key: string, post: Post, host: Host): string
  {
    if key == "edit" then EditLink(post, host)
    else if key == "untrash" then UntrashLink(post, host)
    else if key == "trash" then TrashLink(post, host)
    else DeleteLink(post, host)
  }

  /** The entries for `keys`, in order, each key with its link. */
  function ActionEntries(keys: seq<string>, post: Post, host: Host): Assoc
  {
    if keys == [] then []
    else
      var k := keys[|keys| - 1];
      ActionEntries(keys[..|keys| - 1], post, host) + [Entry(k, ActionLink(k, post, host))]
  }

  /** Entry i of the array pairs the i-th key with that key's link. */
  lemma {:induction false} ActionEntriesFollowKeys(keys: seq<string>, post: Post, host: Host)
    ensures |ActionEntries(keys, post, host)| == |keys|
    ensures forall i :: 0 <= i < |keys| ==>
      ActionEntries(keys, post, host)[i] == Entry(keys[i], ActionLink(keys[i], post, host))
    decreases |keys|
  {
    if keys != [] {
      ActionEntriesFollowKeys(keys[..|keys| - 1], post, host);
    }
  }

  /** The row actions of a post: the offered keys in order, each with its link. */
  function RowActions(post: Post, caps: Capabilities, host: Host): Assoc
  {
    ActionEntries(OfferedKeys(post.status, caps, TrashRetention(host.emptyTrashDays)), post, host)
  }

  /** Keys in strictly increasing rank give entries with exactly those keys, all distinct. */
  lemma RankedKeysDistinct(keys: seq<string>, post: Post, host: Host)
    requires forall i, j :: 0 <= i < j < |keys| ==> Rank(keys[i]) < Rank(keys[j])
    ensures Keys(ActionEntries(keys, post, host)) == keys
    ensures DistinctKeys(ActionEntries(keys, post, host))
  {
    var actions := ActionEntries(keys, post, host);
    ActionEntriesFollowKeys(keys, post, host);
    assert Keys(actions) == keys;
    forall i, j | 0 <= i < j < |actions| ensures actions[i].key != actions[j].key {
      assert Rank(actions[i].key) < Rank(actions[j].key);
    }
  }

  /** The row actions carry exactly the offered keys, in order, each with its own link. */
  lemma RowActionsFollowPolicy(post: Post, caps: Capabilities, host: Host)
    ensures var ks, actions := OfferedKeys(post.status, caps, TrashRetention(host.emptyTrashDays)),
                               RowActions(post, caps, host);
      && Keys(actions) == ks && DistinctKeys(actions)
      && forall i :: 0 <= i < |actions| ==> actions[i].value == ActionLink(ks[i], post, host)
  {
    var ks := OfferedKeys(post.status, caps, TrashRetention(host.emptyTrashDays));
    OfferedKeysPolicy(post.status, caps, TrashRetention(host.emptyTrashDays));
    ActionEntriesFollowKeys(ks, post, host);
    RankedKeysDistinct(ks, post, host);
  }

  /** Where the type, the '_' and the digits of the id stand in the nonce action. */
  lemma UntrashNonceActionLayout(postType: string, id: nat)
    ensures var s, d := UntrashNonceAction(postType, id), Decimal(id);
      && |s| == 9 + |postType| + |d|
      && s[..8] == "untrash-" && s[8..|s| - |d| - 1] == postType
      && s[|s| - |d| - 1] == '_' && s[|s| - |d|..] == d
      && forall j | |s| - |d| <= j < |s| :: IsDigit(s[j])
  {
    var s, d := UntrashNonceAction(postType, id), Decimal(id);
    forall j | |s| - |d| <= j < |s| ensures IsDigit(s[j]) {
      assert s[j] == d[j - (|s| - |d|)];
    }
  }

  /**
   * The restore link's nonce is bound to one post: two posts whose nonce actions
   * coincide have the same type and the same id.
   */
  lemma UntrashNonceBindsPost(type1: string, id1: nat, type2: string, id2: nat)
    requires UntrashNonceAction(type1, id1) == UntrashNonceAction(type2, id2)
    ensures type1 == type2 && id1 == id2
  {
    var s := UntrashNonceAction(type1, id1);
    var d1, d2 := Decimal(id1), Decimal(id2);
    var n := |s|;
    UntrashNonceActionLayout(type1, id1);
    UntrashNonceActionLayout(type2, id2);
    // The '_' before each id's digits is not a digit, so neither id is longer.
    assert !IsDigit(s[n - |d1| - 1]) && !IsDigit(s[n - |d2| - 1]);
    assert |d1| == |d2|;
    DecimalInjective(id1, id2);
  }

  // ---------------------------------------------------------------------------
  // custom_edit_columns: rendering

  const RowActionsOpen := "<div class=\"row-actions\">"
  const RowActionsClose := "</div>"
  const Separator := " | "

  /** The span of the k-th action: its link, then the separator unless it is the last. */
  function SpanAt(actions: Assoc, k: nat): string
    requires k < |actions|
  {
    "<span class='" + actions[k].key + "'>" + actions[k].value
      + (if k + 1 == |actions| then "" else Separator) + "</span>"
  }

  /** The spans of the first k actions. */
  function SpansBefore(actions: Assoc, k: nat): string
    requires k <= |actions|
  {
    if k == 0 then "" else SpansBefore(actions, k - 1) + SpanAt(actions, k - 1)
  }

  /** The row-actions block for `actions`. */
  function RowActionsHtml(actions: Assoc): string
  {
    RowActionsOpen + SpansBefore(actions, |actions|) + RowActionsClose
  }

  /** The opening of each action's span, up to and including its link. */
  function SpanOpenings(actions: Assoc): seq<string>
  {
    seq(|actions|, i requires 0 <= i < |actions| => "<span class='" + actions[i].key + "'>" + actions[i].value)
  }

  /** The spans of the first k actions, when they are not all of them. */
  lemma {:induction false} SpansBeforeJoin(actions: Assoc, k: nat)
    requires 0 < k <= |actions|
    ensures SpansBefore(actions, k)
      == Implode(Separator + "</span>", SpanOpenings(actions)[..k])
         + (if k == |actions| then "</span>" else Separator + "</span>")
  {
    var o := SpanOpenings(actions);
    if k > 1 {
      SpansBeforeJoin(actions, k - 1);
      assert o[..k][..k - 1] == o[..k - 1];
    }
  }

  /**
   * The block is a separator join: the span openings imploded with " | </span>",
   * closed by one final "</span>"; with no actions it is the empty container.
   */
  lemma RowActionsHtmlIsImplode(actions: Assoc)
    ensures RowActionsHtml(actions)
      == RowActionsOpen + Implode(Separator + "</span>", SpanOpenings(actions))
         + (if |actions| == 0 then "" else "</span>") + RowActionsClose
  {
    if |actions| > 0 {
      SpansBeforeJoin(actions, |actions|);
      assert SpanOpenings(actions)[..|actions|] == SpanOpenings(actions);
    }
  }

  /**
   * When no key or link contains '|', the block holds exactly one '|' per gap between
   * neighbouring actions: n actions give max(n - 1, 0) separators.
   */
  lemma {:induction false} SeparatorCount(actions: Assoc)
    requires forall i :: 0 <= i < |actions| ==> '|' !in actions[i].key && '|' !in actions[i].value
    ensures CountChar(RowActionsHtml(actions), '|') == if |actions| == 0 then 0 else |actions| - 1
  {
    SpansBeforeCount(actions, |actions|);
    CountCharConcat(RowActionsOpen + SpansBefore(actions, |actions|), RowActionsClose, '|');
    CountCharConcat(RowActionsOpen, SpansBefore(actions, |actions|), '|');
    ContainerHasNoBar();
  }

  /** The container's tags hold no '|'. */
  lemma ContainerHasNoBar()
    ensures CountChar(RowActionsOpen, '|') == 0 && CountChar(RowActionsClose, '|') == 0
  {
    CountCharAbsent(RowActionsOpen, '|');
    CountCharAbsent(RowActionsClose, '|');
  }

  /** A span holds a '|' exactly when it carries the separator. */
  lemma SpanCount(actions: Assoc, k: nat)
    requires k < |actions| && '|' !in actions[k].key && '|' !in actions[k].value
    ensures CountChar(SpanAt(actions, k), '|') == if k + 1 == |actions| then 0 else 1
  {
    var a := actions[k];
    var sep := if k + 1 == |actions| then "" else Separator;
    var opening := "<span class='" + a.key + "'>" + a.value;
    assert SpanAt(actions, k) == opening + sep + "</span>";
    CountCharConcat(opening + sep, "</span>", '|');
    CountCharConcat(opening, sep, '|');
    CountCharAbsent("</span>", '|');
    assert '|' !in opening;
    CountCharAbsent(opening, '|');
    assert Separator[..2] == " |" && " |"[..1] == " " && " "[..0] == "";
    assert CountChar(Separator, '|') == 1;
  }

  /** The first k spans hold one '|' per span that is not the last one overall. */
  lemma {:induction false} SpansBeforeCount(actions: Assoc, k: nat)
    requires k <= |actions|
    requires forall i :: 0 <= i < |actions| ==> '|' !in actions[i].key && '|' !in actions[i].value
    ensures CountChar(SpansBefore(actions, k), '|') == if k == 0 then 0 else k - 1 + (if k == |actions| then 0 else 1)
  {
    if k > 0 {
      SpansBeforeCount(actions, k - 1);
      SpanCount(actions, k - 1);
      CountCharConcat(SpansBefore(actions, k - 1), SpanAt(actions, k - 1), '|');
    }
  }

  /** The last span carries no separator: the block ends with the last link, "</span>" and "</div>". */
  lemma NoTrailingSeparator(actions: Assoc)
    requires |actions| > 0
    ensures var h, tail := RowActionsHtml(actions), actions[|actions| - 1].value + "</span>" + RowActionsClose;
      |tail| <= |h| && h[|h| - |tail|..] == tail
  {
    var n := |actions|;
    var h := RowActionsHtml(actions);
    var opening := "<span class='" + actions[n - 1].key + "'>";
    var link := actions[n - 1].value;
    var tail := link + "</span>" + RowActionsClose;
    var front := RowActionsOpen + SpansBefore(actions, n - 1) + opening;
    assert SpanAt(actions, n - 1) == opening + link + "</span>";
    AppendAssoc(opening, link, "</span>");
    AppendAssoc(RowActionsOpen, SpansBefore(actions, n - 1), SpanAt(actions, n - 1));
    AppendAssoc(RowActionsOpen + SpansBefore(actions, n - 1), opening, link + "</span>");
    AppendAssoc(front, link + "</span>", RowActionsClose);
    assert h == front + tail;
  }

  // ---------------------------------------------------------------------------
  // custom_edit_columns: the method

  /** Fills the `$actions` array entry by entry, as the source does. */
  method BuildRowActions(post: Post, caps: Capabilities, host: Host) returns (actions: Assoc)
    ensures actions == RowActions(post, caps, host)
    ensures DistinctKeys(actions)
  {
    var retention := TrashRetention(host.emptyTrashDays);
    // The keys assigned by the edit branch.
    ghost var edit: seq<string> := [];
    actions := [];
    if caps.editPost && TrashStatus != post.status {
      actions := AddAction(actions, edit, "edit", post, host);
      edit := ["edit"];
    }
    if caps.deletePost {
      actions := AddDeleteActions(actions, edit, post, host, retention);
    } else {
      assert edit + [] == edit;
    }
    OfferedKeysByCase(post.status, caps, retention);
  }

  /** The branches of the row-action block that need the delete capability. */
  method AddDeleteActions(actions: Assoc, ghost edit: seq<string>, post: Post, host: Host, retention: bool)
    returns (extended: Assoc)
    requires edit == [] || edit == ["edit"]
    requires actions == ActionEntries(edit, post, host) && Keys(actions) == edit && DistinctKeys(actions)
    ensures extended == ActionEntries(edit + DeleteCapabilityKeys(post.status, retention), post, host)
    ensures DistinctKeys(extended)
  {
    // The keys assigned so far; each assignment adds a key not yet present.
    ghost var keys := edit;
    extended := actions;
    if TrashStatus == post.status {
      extended := AddAction(extended, keys, "untrash", post, host);
      keys := edit + ["untrash"];
    } else if retention {
      extended := AddAction(extended, keys, "trash", post, host);
      keys := edit + ["trash"];
    }
    if TrashStatus == post.status || !retention {
      extended := AddAction(extended, keys, "delete", post, host);
      keys := keys + ["delete"];
    }
    assert keys == edit + DeleteCapabilityKeys(post.status, retention);
  }

  /** `$actions[key] = <link>` for a key not yet in the array. */
  method AddAction(actions: Assoc, ghost keys: seq<string>, key: string, post: Post, host: Host)
    returns (extended: Assoc)
    requires actions == ActionEntries(keys, post, host) && Keys(actions) == keys
    requires DistinctKeys(actions) && key !in keys
    ensures extended == ActionEntries(keys + [key], post, host) && Keys(extended) == keys + [key]
    ensures DistinctKeys(extended)
  {
    extended := Assign(actions, key, ActionLink(key, post, host));
    AssignKeepsKeysDistinct(actions, key, ActionLink(key, post, host));
    assert (keys + [key])[..|keys|] == keys;
  }

  /** Wraps each action in a span, a separator after every span but the last. */
  method RenderRowActions(actions: Assoc) returns (out: string)
    ensures out == RowActionsHtml(actions)
    ensures actions == [] ==> out == RowActionsOpen + RowActionsClose
  {
    var actionCount := |actions|;
    var i := 0;
    out := RowActionsOpen;
    while i < actionCount
      invariant 0 <= i <= actionCount
      invariant out == RowActionsOpen + SpansBefore(actions, i)
    {
      var action, link := actions[i].key, actions[i].value;
      i := i + 1;
      var sep := if i == actionCount then "" else Separator;
      var span := "<span class='" + action + "'>" + link + sep + "</span>";
      assert span == SpanAt(actions, i - 1);
      AppendAssoc(RowActionsOpen, SpansBefore(actions, i - 1), span);
      out := out + span;
    }
    out := out + RowActionsClose;
  }

  /**
   * The cell of a list-table row: for the thumbnail column, the post's thumbnail or
   * the translated "No image", then the row-actions block; other columns print nothing.
   */
  method CustomEditColumns(column: string, post: Post, caps: Capabilities, host: Host)
    returns (out: string)
    ensures column != "thumbnail" ==> out == ""
    ensures column == "thumbnail" && post.hasThumbnail ==>
      out == host.thumbnail(post.id) + RowActionsHtml(RowActions(post, caps, host))
    ensures column == "thumbnail" && !post.hasThumbnail ==>
      out == host.translate("No image", TextDomain) + RowActionsHtml(RowActions(post, caps, host))
  {
    out := "";
    if column == "thumbnail" {
      if post.hasThumbnail {
        out := host.thumbnail(post.id);
      } else {
        out := host.translate("No image", TextDomain);
      }
      var actions := BuildRowActions(post, caps, host);
      var block := RenderRowActions(actions);
      out := out + block;
    }
  }
}
