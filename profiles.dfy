/**
 * The two persisted records: the framework's account (`User`, only the
 * fields this core reads or writes) and the `Profile` that extends it,
 * with the profile's constant tables and its name and URL builders.
 */
module Profiles {
  import opened Wrappers
  import opened Text

  /** The stored password: what `set_password` leaves behind. Hashing and salting are abstracted away. */
  datatype Credential = Unusable | Hashed(raw: string)

  /** An account of the authentication subsystem. */
  datatype User = User(
    id: nat,
    username: string,
    email: string,
    firstName: string,
    lastName: string,
    password: Credential)

  /** `user.check_password(raw)`. */
  predicate ChecksPassword(u: User, raw: string) {
    u.password == Hashed(raw)
  }

  /**
   * A profile row. `user` is the foreign key (the account's id); `username`
   * is a nullable copy of the account's username; the colour fields and the
   * background image are nullable.
   */
  datatype Profile = Profile(
    user: nat,
    username: Option<string>,
    lastPublished: int,
    description: string,
    url: string,
    extras: map<string, string>,
    background: Option<string>,
    backgroundColor: Option<string>,
    linksColor: Option<string>,
    buttonBackground: Option<string>,
    buttonColor: Option<string>)

  /**
   * `Profile(user=owner, username=owner.username)` with every other field at
   * its declared default; `now` is the clock reading that `auto_now_add`
   * stores in `last_published`.
   */
  function NewProfile(owner: User, now: int): (p: Profile)
    ensures p.user == owner.id && p.username == Some(owner.username)
    ensures p.lastPublished == now
    ensures p.description == "" && p.url == "" && p.extras == map[]
    ensures p.background.None? && p.backgroundColor.None? && p.linksColor.None?
    ensures p.buttonBackground.None? && p.buttonColor.None?
  {
    Profile(owner.id, Some(owner.username), now, "", "", map[], None, None, None, None, None)
  }

  /** An avatar size: width and height in pixels. */
  datatype Dimensions = Dimensions(width: nat, height: nat)

  /** The avatar size keys, smallest first. */
  const SizeKeys: seq<string> := ["u", "s", "m", "l"]

  /** `Profile.sizes`: the allowed avatar sizes. */
  function Sizes(): map<string, Dimensions> {
    map["u" := Dimensions(25, 25), "s" := Dimensions(50, 50),
        "m" := Dimensions(80, 80), "l" := Dimensions(115, 115)]
  }

  /** `Profile.basepath`: the directory of the avatars. */
  const Basepath: string := "avatars"

  /** `Profile.defaults`: the default avatar image for each size. */
  function Defaults(): map<string, string> {
    map["u" := "avatar_u.png", "s" := "avatar_s.png",
        "m" := "avatar_m.png", "l" := "avatar_l.png"]
  }

  /** The four sizes are squares, listed in `SizeKeys` in strictly increasing order. */
  lemma SizesAreIncreasingSquares()
    ensures Sizes().Keys == set k | k in SizeKeys
    ensures forall k :: k in Sizes() ==> Sizes()[k].width == Sizes()[k].height
    ensures forall i, j :: 0 <= i < j < |SizeKeys| ==> Sizes()[SizeKeys[i]].width < Sizes()[SizeKeys[j]].width
    ensures Sizes()["u"].width == 25 && Sizes()["s"].width == 50
    ensures Sizes()["m"].width == 80 && Sizes()["l"].width == 115
  {
  }

  /** There is a default avatar for exactly the allowed sizes, named after the size key. */
  lemma DefaultsMatchSizes()
    ensures Defaults().Keys == Sizes().Keys
    ensures forall k :: k in Defaults() ==> Defaults()[k] == "avatar_" + k + ".png"
  {
  }

  /** `os.path.join(a, b)` for two components (POSIX): an absolute `b` replaces `a`. */
  function PathJoin(a: string, b: string): (r: string)
    ensures |b| > 0 && b[0] == '/' ==> r == b
    ensures (|b| == 0 || b[0] != '/') ==> a <= r && EndsWith(r, b)
    ensures (|b| == 0 || b[0] != '/') && (a == [] || a[|a| - 1] == '/') ==> r == a + b
    ensures (|b| == 0 || b[0] != '/') && a != [] && a[|a| - 1] != '/' ==> r == a + "/" + b
  {
    if |b| > 0 && b[0] == '/' then b
    else if a == [] || a[|a| - 1] == '/' then a + b
    else a + "/" + b
  }

  /** The file name of the thumbnail of `size`, before it is joined to the base directory. */
  function ThumbnailFile(username: string, size: string): string {
    username + "_" + size + ".jpg"
  }

  /**
   * `profile.thumbnail_name(size)`: the owner's current username, not the
   * profile's copy, joined under `base` (what `thumbnail_basepath()` yields,
   * not part of this model). `size` is a size key; `str` is the identity on it.
   */
  function ThumbnailName(base: string, p: Profile, owner: User, size: string): (r: string)
    requires p.user == owner.id
    ensures |owner.username| > 0 && owner.username[0] == '/' ==> r == ThumbnailFile(owner.username, size)
    ensures (|owner.username| == 0 || owner.username[0] != '/') ==>
              base <= r && EndsWith(r, ThumbnailFile(owner.username, size))
    ensures (|owner.username| == 0 || owner.username[0] != '/') && (base == [] || base[|base| - 1] == '/') ==>
              r == base + ThumbnailFile(owner.username, size)
    ensures (|owner.username| == 0 || owner.username[0] != '/') && base != [] && base[|base| - 1] != '/' ==>
              r == base + "/" + ThumbnailFile(owner.username, size)
  {
    PathJoin(base, ThumbnailFile(owner.username, size))
  }

  /** The thumbnail name is built from the owner's username: the profile's own copy plays no part. */
  lemma ThumbnailNameIgnoresProfileCopy(base: string, p: Profile, owner: User, size: string, c: Option<string>)
    requires p.user == owner.id
    ensures ThumbnailName(base, p, owner, size) == ThumbnailName(base, p.(username := c), owner, size)
  {
  }

  /** For one owner, distinct sizes give distinct thumbnail names. */
  lemma ThumbnailNameInjective(base: string, p: Profile, owner: User, s1: string, s2: string)
    requires p.user == owner.id
    requires ThumbnailName(base, p, owner, s1) == ThumbnailName(base, p, owner, s2)
    ensures s1 == s2
  {
    var f1, f2 := ThumbnailFile(owner.username, s1), ThumbnailFile(owner.username, s2);
    assert f1[0] == f2[0] by {
      if |owner.username| > 0 {
        assert f1[0] == owner.username[0] == f2[0];
      } else {
        assert f1[0] == '_' == f2[0];
      }
    }
    var r := ThumbnailName(base, p, owner, s1);
    if f1[0] == '/' {
      assert f1 == r == f2;
    } else if base == [] || base[|base| - 1] == '/' {
      assert base + f1 == base + f2;
      assert f1 == (base + f1)[|base|..];
      assert f2 == (base + f2)[|base|..];
    } else {
      assert base + "/" + f1 == base + "/" + f2;
      assert f1 == (base + "/" + f1)[|base| + 1..];
      assert f2 == (base + "/" + f2)[|base| + 1..];
    }
    assert owner.username + "_" + s1 + ".jpg" == owner.username + "_" + s2 + ".jpg";
    CancelAffixes(owner.username + "_", s1, s2, ".jpg");
  }

  /** `"%s" % value`: a null value formats as `None`. */
  function FormatValue(v: Option<string>): string {
    match v
    case Some(s) => s
    case None => "None"
  }

  /** `profile.get_absolute_url()`: the profile's subdomain, built from the profile's username copy. */
  function AbsoluteUrl(p: Profile, domain: string): (r: string)
    ensures "http://" <= r
    ensures p.username.Some? ==> r == "http://" + p.username.value + "." + domain
    ensures p.username.None? ==> r == "http://None." + domain
  {
    "http://" + FormatValue(p.username) + "." + domain
  }

  /** On one domain, profiles whose username copies are set have the same URL only when the copies agree. */
  lemma AbsoluteUrlDeterminesUsername(p1: Profile, p2: Profile, domain: string)
    requires p1.username.Some? && p2.username.Some?
    requires AbsoluteUrl(p1, domain) == AbsoluteUrl(p2, domain)
    ensures p1.username == p2.username
  {
    var a, b := p1.username.value, p2.username.value;
    assert "http://" + a + "." + domain == "http://" + a + ("." + domain);
    assert "http://" + b + "." + domain == "http://" + b + ("." + domain);
    CancelAffixes("http://", p1.username.value, p2.username.value, "." + domain);
  }

  /**
   * A freshly provisioned profile's URL is `http://<username>.<domain>` built
   * from the account's username, the same target as the view that redirects
   * a username to its profile.
   */
  lemma NewProfileUrl(owner: User, now: int, domain: string)
    ensures AbsoluteUrl(NewProfile(owner, now), domain) == "http://" + owner.username + "." + domain
  {
  }
}
