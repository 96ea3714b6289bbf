# Image-only post type: admin list and editor behaviour

A Dafny model of the `HHS_Image_Only_CPT` WordPress plugin class, which tailors the
admin screens of an image-only `slide` post type. The model covers four members of the class:

- `admin_post_thumbnail_html` relabels the featured-image box of a slide. It runs two
  `str_replace` calls: "Set featured image" becomes "Select / Upload a slide image",
  then "Remove featured image" becomes "Remove slide image".
- `media_view_strings` sets the media modal's `setFeaturedImageTitle` and
  `setFeaturedImage` strings to the translated "Set slide image" for slides.
- `manage_edit_columns` replaces the list table's columns with a checkbox column and a
  thumbnail column.
- `custom_edit_columns` prints the thumbnail cell. That is the thumbnail, or the
  translated "No image" when there is none, followed by the row actions. An ordered
  array of `edit` / `untrash` / `trash` / `delete` links is built from the post's
  status, the user's edit and delete capabilities and `EMPTY_TRASH_DAYS`. It is then
  rendered as spans inside `<div class="row-actions">`, with `" | "` inside every span
  but the last.

Modules:

- `PhpArray` (`php_array.dfy`) models PHP arrays with string keys as ordered entry
  lists. `$a[k] = v` updates a key in place or appends it.
- `PhpString` (`php_string.dfy`) models `str_replace` with one search string. Like PHP,
  it finds the next match, copies the text before it and appends the replacement.
  The module also holds the decimal rendering of an integer in a concatenation. Its
  `Implode` (a separator join) and `CountChar` (a character count) are reference
  definitions, used only to state properties of the row-actions block.
- `ImageOnlyCpt` (`image_only_cpt.dfy`) models the class itself.

WordPress is never called. Its answers are inputs:

- `Post` holds the post's id, type, status and whether it has a thumbnail.
- `Capabilities` holds the two `current_user_can` results.
- `Host` holds `__()`, the link builders, `admin_url`, `wp_nonce_url`, `sprintf` on the
  type's `_edit_link`, the thumbnail markup and `EMPTY_TRASH_DAYS`.

Where the code is echoed, the model returns the string instead. A post type that
`get_post_type` cannot find (PHP `false`) is `None`. `EMPTY_TRASH_DAYS` is an integer,
truthy when it is non-zero.

Three details of the PHP that the model keeps:

- The placeholder is `__( 'No image', 'textdomain' )`, a translated string.
- The separator `" | "` sits inside each span but the last, before its `</span>`.
- The action labels are translated in WordPress's default text domain, as `__()` with
  no domain does.

## Model

| member | source | states |
|---|---|---|
| `ImageOnlyCpt.AdminPostThumbnailHtml` | image-only-post-type/class-hhs-image-only-cpt.php:86-96 | For a post type other than `slide` the markup is returned unchanged. For a slide, no "Set featured image" and no "Remove featured image" is left afterwards. Markup that contains neither label comes back unchanged. |
| `ImageOnlyCpt.SetLabelIsolated` | image-only-post-type/class-hhs-image-only-cpt.php:91 | No occurrence of "Set featured image" can overlap a copy of "Select / Upload a slide image". So the first replacement can neither leave nor create the old label. |
| `ImageOnlyCpt.SetLabelIsolatedFromRemove` | image-only-post-type/class-hhs-image-only-cpt.php:91-92 | No occurrence of "Set featured image" can overlap "Remove slide image". So the second replacement cannot bring back the first label. |
| `ImageOnlyCpt.RemoveLabelIsolated` | image-only-post-type/class-hhs-image-only-cpt.php:92 | No occurrence of "Remove featured image" can overlap "Remove slide image". |
| `PhpString.FindLeftmost` | image-only-post-type/class-hhs-image-only-cpt.php:91-92 | The search that `str_replace` repeats returns the leftmost occurrence of the search string, with no occurrence before it. It returns nothing exactly when the string does not occur. |
| `PhpString.ReplaceAllUnchanged` | image-only-post-type/class-hhs-image-only-cpt.php:91-92 | `str_replace` leaves its subject unchanged when the search string is empty or does not occur. |
| `PhpString.Find` | image-only-post-type/class-hhs-image-only-cpt.php:91-92 | The search that `str_replace` repeats. A match it returns lies inside the subject; `PhpString.FindLeftmost` and `PhpString.FindFirst` state which match it is. |
| `PhpString.FindFirst` | image-only-post-type/class-hhs-image-only-cpt.php:91-92 | When the search string occurs at `i` and nowhere before, the search returns `i`. |
| `PhpString.ReplaceAll` | image-only-post-type/class-hhs-image-only-cpt.php:91-92 | `str_replace` with one search string. Its properties are stated by `PhpString.ReplaceAllUnchanged`, `PhpString.ReplaceAllStep`, `PhpString.ReplaceAllRemoves` and `PhpString.ReplaceAllKeepsAbsent`. |
| `PhpString.ReplaceAllStep` | image-only-post-type/class-hhs-image-only-cpt.php:91-92 | When the search string occurs at `i` and at no earlier position, the occurrence lies inside the subject, and the result is the text before `i`, then the replacement, then the rest after the occurrence with its own occurrences replaced. |
| `PhpString.NoMatchBefore` | image-only-post-type/class-hhs-image-only-cpt.php:91-92 | The text before the first occurrence holds no occurrence, so `str_replace` copies it unchanged. |
| `PhpString.ReplaceTwiceRemovesBoth` | image-only-post-type/class-hhs-image-only-cpt.php:91-92 | After two replacements in a row, neither search string is left, provided each replacement is isolated from its own search string and the second one also from the first. |
| `PhpString.ReplaceTwiceUnchanged` | image-only-post-type/class-hhs-image-only-cpt.php:91-92 | Two replacements leave a subject that holds neither search string unchanged. |
| `PhpString.ReplaceAllRemoves` | image-only-post-type/class-hhs-image-only-cpt.php:91-92 | After replacing every occurrence by a replacement that no occurrence can overlap, none is left. |
| `PhpString.ReplaceAllKeepsAbsent` | image-only-post-type/class-hhs-image-only-cpt.php:91-92 | A replacement that no copy of `q` can overlap never creates a `q` that was not there. |
| `PhpString.IsolatedJoin` | image-only-post-type/class-hhs-image-only-cpt.php:91-92 | Text free of `q`, joined on both sides of an isolated replacement, stays free of `q`. |
| `ImageOnlyCpt.MediaViewStrings` | image-only-post-type/class-hhs-image-only-cpt.php:109-116 | Other post types get the array back as given. For a slide, both featured-image keys read the translated "Set slide image". Every other key reads as before, existing keys keep their order, at most two keys are added, and the keys stay distinct. |
| `PhpArray.Assign` | image-only-post-type/class-hhs-image-only-cpt.php:111-112 | `$a[k] = v` makes `k` read back `v` and leaves every other key as it was. An existing key keeps its place and a new key is appended. |
| `PhpArray.AssignKeepsKeysDistinct` | image-only-post-type/class-hhs-image-only-cpt.php:111-112 | Assignment keeps an array's keys pairwise distinct. |
| `PhpArray.Lookup` | image-only-post-type/class-hhs-image-only-cpt.php:111-112 | Reading a key gives nothing exactly when the key is not among the array's keys. |
| `ImageOnlyCpt.ManageEditColumns` | image-only-post-type/class-hhs-image-only-cpt.php:125-132 | Whatever columns are given, the result has exactly the keys `cb` and `thumbnail`, in that order. `cb` holds the checkbox input and `thumbnail` the translated "Slide". |
| `ImageOnlyCpt.TrashRetention` | image-only-post-type/class-hhs-image-only-cpt.php:162-164 | `EMPTY_TRASH_DAYS` is truthy exactly when it is non-zero. `ImageOnlyCpt.OfferedKeysPolicy` states how it picks between `trash` and `delete`. |
| `ImageOnlyCpt.Offered` | image-only-post-type/class-hhs-image-only-cpt.php:154-166 | Whether one action key is offered, key by key. `ImageOnlyCpt.OfferedKeysPolicy` and `ImageOnlyCpt.OfferedKeysByCase` state the policy it encodes. |
| `ImageOnlyCpt.OfferedKeys` | image-only-post-type/class-hhs-image-only-cpt.php:154-166 | The offered keys in action order. `ImageOnlyCpt.OfferedKeysPolicy` and `ImageOnlyCpt.OfferedKeysByCase` state which keys they are. |
| `ImageOnlyCpt.OfferedKeysPolicy` | image-only-post-type/class-hhs-image-only-cpt.php:154-166 | The policy, rule by rule. `edit` is offered exactly when the user can edit and the post is not trashed. Without the delete capability there is no `untrash`, `trash` or `delete`. A trashed post with it gets `untrash` and `delete` but never `trash`. A live post with it gets `trash` exactly when trash retention is on and `delete` exactly when it is off. There are at most three keys, in edit, untrash, trash, delete order. |
| `ImageOnlyCpt.OfferedKeysByCase` | image-only-post-type/class-hhs-image-only-cpt.php:157-166 | The per-key policy agrees with the source's nested conditions. `edit` comes first when the user can edit a live post. With the delete capability, a trashed post then gets `untrash` and `delete`, and a live post gets `trash` when trash retention is on and `delete` when it is off. |
| `ImageOnlyCpt.BuildRowActions` | image-only-post-type/class-hhs-image-only-cpt.php:154-166 | The source's nested `if`s, filling `$actions` entry by entry, produce exactly the offered keys of the policy, with their links and with distinct keys. |
| `ImageOnlyCpt.AddDeleteActions` | image-only-post-type/class-hhs-image-only-cpt.php:159-166 | The branches under the delete capability append `untrash` and `delete` for a trashed post, `trash` for a live post with trash retention on and `delete` for one with it off, with their links and with distinct keys. |
| `ImageOnlyCpt.AddAction` | image-only-post-type/class-hhs-image-only-cpt.php:157-165 | Assigning a key that is not yet present appends it with its link and keeps the keys distinct. |
| `ImageOnlyCpt.EditLink` | image-only-post-type/class-hhs-image-only-cpt.php:157 | The `edit` link: the edit URL and the translated "Edit". `ImageOnlyCpt.ActionEntriesFollowKeys` states that the `edit` entry carries it. |
| `ImageOnlyCpt.UntrashNonceAction` | image-only-post-type/class-hhs-image-only-cpt.php:161 | The nonce action of the restore link. `ImageOnlyCpt.UntrashNonceActionLayout` and `ImageOnlyCpt.UntrashNonceBindsPost` state its layout and that it names one post. |
| `ImageOnlyCpt.UntrashLink` | image-only-post-type/class-hhs-image-only-cpt.php:161 | The `untrash` link: the nonce-protected restore URL and the translated "Restore". `ImageOnlyCpt.ActionEntriesFollowKeys` states that the `untrash` entry carries it. |
| `ImageOnlyCpt.TrashLink` | image-only-post-type/class-hhs-image-only-cpt.php:163 | The `trash` link: the delete URL and the translated "Trash". `ImageOnlyCpt.ActionEntriesFollowKeys` states that the `trash` entry carries it. |
| `ImageOnlyCpt.DeleteLink` | image-only-post-type/class-hhs-image-only-cpt.php:165 | The `delete` link: the forced delete URL and the translated "Delete Permanently". `ImageOnlyCpt.ActionEntriesFollowKeys` states that the `delete` entry carries it. |
| `ImageOnlyCpt.ActionLink` | image-only-post-type/class-hhs-image-only-cpt.php:157-165 | The link assigned under each action key. `ImageOnlyCpt.ActionEntriesFollowKeys` and `ImageOnlyCpt.RowActionsFollowPolicy` state that every entry pairs its key with this link. |
| `ImageOnlyCpt.ActionEntriesFollowKeys` | image-only-post-type/class-hhs-image-only-cpt.php:157-165 | There is one action entry per key, and the i-th entry pairs the i-th key with that key's link. |
| `ImageOnlyCpt.RankedKeysDistinct` | image-only-post-type/class-hhs-image-only-cpt.php:157-165 | Keys assigned in strictly increasing action order give an array with exactly those keys, in that order and all distinct. |
| `ImageOnlyCpt.RowActions` | image-only-post-type/class-hhs-image-only-cpt.php:154-166 | The `$actions` array of a post. `ImageOnlyCpt.RowActionsFollowPolicy` states its keys and links, and `ImageOnlyCpt.BuildRowActions` that the source's assignments produce it. |
| `ImageOnlyCpt.RowActionsFollowPolicy` | image-only-post-type/class-hhs-image-only-cpt.php:154-166 | A post's row actions carry exactly the offered keys, in order, with distinct keys, each with its own link. |
| `ImageOnlyCpt.UntrashNonceActionLayout` | image-only-post-type/class-hhs-image-only-cpt.php:161 | The restore nonce action is `untrash-`, then the post type, then `_`, then the decimal digits of the post id. |
| `ImageOnlyCpt.UntrashNonceBindsPost` | image-only-post-type/class-hhs-image-only-cpt.php:161 | Two posts whose restore nonce actions are equal have the same type and the same id. The token is bound to one post. |
| `PhpString.Decimal` | image-only-post-type/class-hhs-image-only-cpt.php:161 | The id concatenated into the nonce action is a non-empty run of decimal digits with no leading zero. |
| `PhpString.DecimalRoundTrip` | image-only-post-type/class-hhs-image-only-cpt.php:161 | Reading the decimal rendering back gives the id again. |
| `PhpString.DecimalInjective` | image-only-post-type/class-hhs-image-only-cpt.php:161 | Distinct ids render as distinct strings. |
| `ImageOnlyCpt.SpanAt` | image-only-post-type/class-hhs-image-only-cpt.php:172-175 | One span of the loop. `ImageOnlyCpt.SpanCount` states when it carries the separator. |
| `ImageOnlyCpt.SpansBefore` | image-only-post-type/class-hhs-image-only-cpt.php:172-176 | The spans of the first k actions. `ImageOnlyCpt.SpansBeforeJoin` and `ImageOnlyCpt.SpansBeforeCount` state their shape and their separators. |
| `ImageOnlyCpt.RowActionsHtml` | image-only-post-type/class-hhs-image-only-cpt.php:171-177 | The row-actions block. `ImageOnlyCpt.RenderRowActions`, `ImageOnlyCpt.RowActionsHtmlIsImplode`, `ImageOnlyCpt.SeparatorCount` and `ImageOnlyCpt.NoTrailingSeparator` state what it holds. |
| `ImageOnlyCpt.RenderRowActions` | image-only-post-type/class-hhs-image-only-cpt.php:168-177 | The counter loop builds the row-actions block for its actions. With no actions the block is the empty `<div class="row-actions"></div>`. |
| `ImageOnlyCpt.SpansBeforeJoin` | image-only-post-type/class-hhs-image-only-cpt.php:168-177 | The first k spans are the span openings joined by `" | </span>"`. They are followed by `" | </span>"`, or by a bare `</span>` when the k-th span is the last. |
| `ImageOnlyCpt.RowActionsHtmlIsImplode` | image-only-post-type/class-hhs-image-only-cpt.php:168-177 | The block is a separator join: the span openings imploded with `" | </span>"`, then one final `</span>` when there is any action, all inside the container. |
| `ImageOnlyCpt.SeparatorCount` | image-only-post-type/class-hhs-image-only-cpt.php:168-177 | When no key or link contains `|`, n actions yield exactly max(n-1, 0) separators. |
| `ImageOnlyCpt.SpanCount` | image-only-post-type/class-hhs-image-only-cpt.php:174-175 | When neither its key nor its link contains `|`, a span carries a separator exactly when it is not the last. |
| `ImageOnlyCpt.SpansBeforeCount` | image-only-post-type/class-hhs-image-only-cpt.php:172-176 | When no key or link contains `|`, the first k spans hold one separator each, except the overall last span. |
| `ImageOnlyCpt.NoTrailingSeparator` | image-only-post-type/class-hhs-image-only-cpt.php:174-177 | With at least one action, the block ends with the last link, `</span>` and `</div>`, with no separator after the last link. |
| `ImageOnlyCpt.CustomEditColumns` | image-only-post-type/class-hhs-image-only-cpt.php:142-182 | For the `thumbnail` column the cell is the thumbnail markup when the post has a thumbnail, otherwise the translated "No image", followed by the post's row-actions block. Every other column prints nothing. |

## Left out

- Hook registration in the constructor and the instantiation of the class (lines 20-26
  and 185). They wire callbacks into WordPress and have no behaviour of their own.
- `register_post_type` and `meta_boxes` (lines 33-73). They pass static configuration
  to WordPress APIs.
- What WordPress computes is not modelled; these are inputs or opaque functions:
  - the post's type, status and thumbnail flag;
  - `current_user_can`;
  - the link builders, `admin_url`, `wp_nonce_url`, and `sprintf` on the type's
    `_edit_link`;
  - the translations made by `__()`;
  - the markup that `the_post_thumbnail( $post_id )` prints. That call passes the post
    id in the position of WordPress's image-size argument, and what WordPress does
    with it is not part of this model.
- Output through `echo` is modelled as a returned string. No HTML escaping or
  locale-aware matching happens in the source, and none is modelled.
- Post ids are natural numbers, as WordPress ids are. Negative ids and their `-`
  sign in the nonce action are not modelled.
- `ImageOnlyCpt.SeparatorCount`: states the separator count as a count of `|`
  characters. It therefore assumes that no action key or link contains `|`. The keys
  are fixed words, but the links embed host-built URLs that this model cannot see.
- `ImageOnlyCpt.SpanCount`: counts the separator as a `|` character, so it assumes that
  neither the span's key nor its link contains `|`, for the same reason.
- `ImageOnlyCpt.SpansBeforeCount`: counts separators as `|` characters, so it assumes
  that no action's key or link contains `|`, for the same reason.
- `PhpString.ReplaceAllRemoves`: the "no label is left" guarantee is proved only for a
  replacement that no occurrence of the label can overlap. The three label pairs of
  `admin_post_thumbnail_html` are proved to meet that condition.
