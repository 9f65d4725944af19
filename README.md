# Zero-Users accounts core, in Dafny

This project models the account core of the Zero-Users Django application:

- the field rules of the registration and account-edit forms;
- the account-edit save;
- the mails of the password-reset form;
- the automatic creation of a profile when an account is created;
- the two dictionary builders;
- the profile's name and URL builders and constant tables;
- the URL table of the application.

The framework is replaced by plain values:

- the account and profile tables are sequences of `User` and `Profile` records;
- the site is a `Site(name, domain)` value;
- the clock is a `now: int` parameter;
- "saving the profile fails" is a `saveFails: bool` parameter;
- `int_to_base36` and the token generator are function parameters;
- the thumbnail base path is a string parameter.

Modules follow the source files:

| module | file | models |
|---|---|---|
| `Wrappers` | wrappers.dfy | `Option` and `Result` |
| `Text` | text.dfy | ASCII character classes, `lower()`, `str(n)` for a natural number |
| `Matching` | matching.dfy | greedy regex runs (`Span`) and Python's `$` (`EndAt`: the end of the string, or just before one final `\n`) |
| `Profiles` | profiles.dfy | `User`, `Profile`, the `sizes`/`defaults`/`basepath` tables, `thumbnail_name`, `get_absolute_url` (users/models.py) |
| `Listeners` | listeners.dfy | the `post_save` receiver `create_profile`, as class `Database`: the account and profile tables, a savepoint and a rollback (users/listeners.py) |
| `Accounts` | accounts.dfy | `USERNAME_RE`, the `clean_*` rules, `UserForm.save`, `PasswordResetForm.save` (users/forms.py) |
| `Dicts` | dicts.dfy | `get_dict_by_related`, `get_dict_by_ids` (users/utils.py) |
| `Routes` | routes.dfy | `urlpatterns` as an ordered route list, resolved by first match (users/urls.py) |

A few points of the model need explaining.

- **Which methods run.** `MixinClean` is the second base class of `RegisterForm` and `UserForm`. Under Python's method resolution order, the framework base's methods of the same name win.
  - `UserForm` uses `MixinClean.clean_password2` and its own `clean_email` and `save`.
  - `RegisterForm` uses `MixinClean.clean_email` and `clean_first_name`/`clean_last_name`, and its own `clean_username`.
  - `RegisterForm`'s `clean_password2` is the framework's. The model states it with the same rule as `MixinClean`.
- **The username seen by `clean_email`.** `clean_email` reads the already cleaned username. That value is absent when `clean_username` rejected the username. `exclude(username=None)` then excludes nobody; `RejectedUsernameExcludesNobody` states this.
- **Python's `$`.** The model matches `$` as Python does: at the end of the string or before one final newline.
  - `USERNAME_RE` accepts `abc\n`.
  - `^login$` also matches `login\n`.
  - The lemmas state both forms.
- **What `get_dict_by_related` returns.** The docstring of `get_dict_by_related` describes a map from object ids to related objects. The code maps `str(getattr(obj, related))` to `obj`. The model follows the code.
- **How `thumbnail_name` formats the size.** `str(size)` is the identity on the size keys. `size` is modelled as a string.
- **Account saves.** `Database.InsertUser` and `Database.UpdateUser` stand for `user.save()`. Each stores the account row and then fires the `post_save` receiver, with `created` true for a new account and false for an update.

## Model

| member | source | states |
|---|---|---|
| Accounts.UsernameGrammar | users/forms.py:56 | `USERNAME_RE` accepts exactly the non-empty strings over a-z, 0-9 and '-', and those same strings followed by one final newline |
| Accounts.RejectedUsernameExamples | users/tests.py:107 | the username rule of users/forms.py:138-139 rejects `""`, `my_username`, `my@username.com` and `!@#$%^username` |
| Accounts.AcceptedUsernameExamples | users/tests.py:142 | the username rule of users/forms.py:138-139 accepts `fakeuser`, `fake-user` and `fakeuser01` |
| Accounts.LowerKeepsUsername | users/forms.py:141 | `lower()` is the identity on every accepted username |
| Accounts.CleanUsername | users/forms.py:131-141 | succeeds iff the username rule accepts; then it returns the username unchanged, otherwise the character error |
| Accounts.CleanPassword2 | users/forms.py:68-73 | succeeds iff `password1`, with a missing `password1` read as `""`, equals `password2`; it returns `password2` |
| Accounts.CleanFirstName | users/forms.py:87-93 | fails exactly on an empty name; otherwise it returns the name unchanged |
| Accounts.CleanLastName | users/forms.py:95-101 | fails exactly on empty last names; otherwise it returns them unchanged |
| Accounts.EmailConflicts | users/forms.py:82 | the conflicting accounts are exactly the stored accounts with this email, except the one with the excluded username; excluding a null username excludes nobody |
| Accounts.CleanEmail | users/forms.py:75-85 | "required" error iff the email is empty; "not unique" error iff some account with another username (or any account, when the username is absent) has the email; success iff the email is non-empty and every account holding it has the submitted username, and then the email is returned unchanged |
| Accounts.RegistrationValidMeans | users/forms.py:111-141 | the registration passes all its rules iff both names are given, the username is of the accepted shape, the passwords agree, and the email is non-empty and used by no account except one with the same username |
| Accounts.RejectedUsernameExcludesNobody | users/forms.py:81-83 | once the username is rejected, any account with the same email makes `clean_email` fail |
| Accounts.CleanEmailOf | users/forms.py:197-208 | the account-edit email rule succeeds iff the email is non-empty and every account with it has the edited account's username |
| Accounts.CleanEmailOfIsShared | users/forms.py:203-205 | the account-edit rule is the shared rule, with the instance's username as the excluded one |
| Accounts.KeepingOwnEmailAccepted | users/forms.py:197-208 | when stored emails are unique, keeping one's own non-empty email is accepted |
| Accounts.AccountEditValidMeans | users/forms.py:169-208 | the account-edit form passes all its rules iff both names are given, the passwords agree, and the email is non-empty and held by no account with a username other than the edited account's |
| Accounts.EditedAccount | users/forms.py:210-214 | id and username are kept; names and email are copied from the form; the password is replaced iff `password1` is non-empty, and then exactly `password1` checks |
| Accounts.EmptyPasswordsKeepPassword | users/forms.py:213-214 | with both password fields empty, validation passes and exactly the passwords that checked before still check |
| Accounts.SaveAccountForm | users/forms.py:210-219 | returns the edited account; with `commit` it replaces that account's row, otherwise the store is unchanged; the profiles never change |
| Accounts.ResetMailFor | users/forms.py:274-283 | the mail goes to the user's email from `from_email`; the protocol is `https` iff `use_https`; the site name, domain, uid and token are set as in the template context |
| Accounts.SendResetMails | users/forms.py:270-288 | one mail per cached user, in order, each the mail for that user |
| Accounts.ResetForOneUser | users/forms.py:270-288 | running the reset loop over one account sends exactly one mail, to that account's email, with `https` iff `use_https` |
| Dicts.IndexedKeys | users/utils.py:41-44 | the keys of the dict are exactly the objects' keys (an empty query gives an empty dict) |
| Dicts.IndexedValues | users/utils.py:41-44 | every value is an input object stored under its own key |
| Dicts.IndexedLastWins | users/utils.py:41-44 | the last object with a key is the value under that key |
| Dicts.IndexedSize | users/utils.py:39-46 | at most one entry per object, and exactly one when the keys are distinct |
| Dicts.GetDictByRelated | users/utils.py:23-46 | the loop leaves the dict of objects stored left to right under `str(getattr(obj, related))` |
| Dicts.FilterByPk | users/utils.py:56 | the query holds exactly the rows whose key is among `ids`, with distinct keys when the table has them |
| Dicts.FilterIgnoresRepeatedIds | users/utils.py:56 | the query depends only on the set of ids, not on their order or repetitions |
| Dicts.GetDictByIds | users/utils.py:48-62 | the loop leaves the dict of the queried rows stored under `str(obj.id)` |
| Dicts.DictByIdsContents | users/utils.py:56-60 | the keys are exactly `str(id)` of the stored rows asked for; an id without a row has no key; each value is such a row under the string of its own id |
| Dicts.DictByIdsSize | users/utils.py:56-60 | with distinct primary keys, one entry per matching row however often an id repeats |
| Text.NatToString | users/utils.py:59 | `str(id)` is a non-empty string of decimal digits |
| Text.NatToStringInjective | users/utils.py:59 | distinct ids give distinct keys |
| Listeners.Database.CreateProfile | users/listeners.py:33-48 | the accounts are never changed; exactly one profile for the instance is appended iff `created` and the save succeeds; otherwise the profile table is as before |
| Listeners.Database.InsertUser | users/listeners.py:40-48 | a new account is appended and provisioned; on success "one profile per account" is kept, and on failure the account has no new profile |
| Listeners.Database.UpdateUser | users/listeners.py:40 | an update rewrites the account row and leaves every profile, and its username copy, unchanged, keeping "one profile per account" |
| Listeners.ProvisioningKeepsOneProfileEach | users/listeners.py:42-45 | adding a new account with its new profile keeps every account with exactly one profile, and every profile with an account |
| Listeners.FailedProvisioningLeavesNoProfile | users/listeners.py:46-48 | after the rollback, the new account has no profile, so the invariant no longer holds |
| Listeners.UpdateKeepsOneProfileEach | users/listeners.py:40 | rewriting an account in place with the same id keeps the invariant |
| Profiles.NewProfile | users/models.py:54-86 | the new profile points at the account and copies its username; `last_published` is the clock; every other field has its declared default (empty strings and extras, null images and colours) |
| Profiles.SizesAreIncreasingSquares | users/models.py:92-97 | the sizes are exactly `u`, `s`, `m`, `l`, with edges 25, 50, 80 and 115, squares in strictly increasing order |
| Profiles.DefaultsMatchSizes | users/models.py:103-108 | the default avatars have exactly the size keys, each `avatar_<key>.png` |
| Profiles.PathJoin | users/models.py:116 | `os.path.join`: an absolute second part replaces the first; otherwise the result is the first part, a '/' when the first part is non-empty and does not end in one, and the second part |
| Profiles.ThumbnailName | users/models.py:110-116 | the name is `<account username>_<size>.jpg` joined under the base path: the base, then a '/' when the base is non-empty and does not end in one, then the file name; an absolute file name replaces the base |
| Profiles.ThumbnailNameIgnoresProfileCopy | users/models.py:115 | the name uses the owner account's username; changing the profile's own username copy does not change it |
| Profiles.ThumbnailNameInjective | users/models.py:115 | for one owner, distinct sizes give distinct thumbnail names |
| Profiles.AbsoluteUrl | users/models.py:118-123 | the URL is `http://<profile username>.<domain>`, and `http://None.<domain>` when the profile's username copy is null |
| Profiles.AbsoluteUrlDeterminesUsername | users/models.py:123 | on one domain, two set username copies with the same URL are equal |
| Profiles.NewProfileUrl | users/models.py:123 | a freshly provisioned profile's URL is built from its account's username |
| Routes.MatchExact | users/urls.py:46 | `^lit$` matches exactly `lit` and `lit` with one final newline, and captures nothing |
| Routes.MatchUsernamePrefix | users/urls.py:65 | the catch-all matches iff the path starts with `[\w\-]`; it captures the longest such prefix under `username` |
| Routes.FirstMatch | users/urls.py:44-66 | the result is a matching route with its name and captures, and every route before it fails to match |
| Routes.ResolveIsFirstMatch | users/urls.py:44-66 | a route resolves the path when it matches and no earlier route does |
| Routes.ResetConfirmSound | users/urls.py:55-56 | whatever the confirm pattern captures is a uid of 1 to 13 alphanumerics and a token of two runs (1 to 13 and 1 to 20) around '-', and the path is `reset/<uid>-<token>/`, possibly with one final newline |
| Routes.ResetConfirmComplete | users/urls.py:55-56 | every such uid and token, with or without one final newline, is matched and captured back |
| Routes.ResetConfirmUnique | users/urls.py:55 | a confirm path splits into uid and token in one way only |
| Routes.ResetConfirmNeedsDash | users/urls.py:55 | a confirm path contains '-' |
| Routes.ResolveIgnoresFinalNewline | users/urls.py:44-66 | adding one final newline to a path that does not already end in one does not change how it resolves |
| Routes.IndexRouteWins | users/urls.py:46 | the empty path resolves to `users_index` |
| Routes.LoginRouteWins | users/urls.py:47 | `login` resolves to `users_login` |
| Routes.LogoutRouteWins | users/urls.py:48 | `logout` resolves to `users_logout` |
| Routes.PasswordResetRouteWins | users/urls.py:53 | `password/` resolves to `password_reset` |
| Routes.PasswordResetDoneRouteWins | users/urls.py:54 | `password/completo` resolves to `password_reset_done` |
| Routes.PasswordResetCompleteRouteWins | users/urls.py:57 | `reset/completo/` misses the confirm route and resolves to `password_reset_complete` |
| Routes.RegisterRouteWins | users/urls.py:60 | `register` resolves to `users_register`, not the catch-all |
| Routes.AccountRouteWins | users/urls.py:61 | `cuenta` resolves to `users_account`, not the catch-all |
| Routes.PersonalRouteWins | users/urls.py:62 | `personal` resolves to `users_personal`, not the catch-all |
| Routes.DesignRouteWins | users/urls.py:63 | `diseno` resolves to `users_design`, not the catch-all |
| Routes.ProfileRouteWins | users/urls.py:64 | `profile` resolves to the exact `users_profile` route, not the catch-all |
| Routes.ExactRouteTakesOnlyItsPath | users/urls.py:46-64 | a path resolved by an exact route is that route's literal, possibly with one final newline |
| Routes.UnresolvedPaths | users/urls.py:65 | a path resolves to nothing iff it is not the index path and does not start with `[\w\-]` |
| Routes.UsernameRouteCapture | users/urls.py:65 | a path resolved by the catch-all is named `users_profile` and captures the longest non-empty `[\w\-]` prefix under `username` |
| Routes.ResetLinkResolves | users/urls.py:55-56 | the reset link `reset/<uid>-<token>/` resolves to `password_reset_confirm`, capturing exactly that uid and token |

## Left out

- Views, templates, the admin, packaging and the HTTP tests: they are dispatch and configuration, not this core.
- The `\w` class and `lower()`: the model uses the ASCII letters only. The framework compiles patterns with Unicode `\w`, so non-ASCII word characters are not modelled.
- Field-level validation: the model does not cover email format, `max_length`, the framework's username uniqueness check, or the required `password1` and `password2` fields of the registration form. That is framework code, and each `clean_*` rule starts from values that already passed it. So `RegistrationValidMeans` accepts two empty passwords, which the real form rejects before `clean_password2` runs.
- `RegisterForm`'s framework `clean_password2` and `save` live in Django, outside this repository. The password check is stated with `MixinClean`'s rule, and `RegisterForm.save` is not modelled. That save creates the account and sends the welcome mail, which is I/O.
- `MixinClean.save` is shadowed in both forms, so it never runs and is not modelled.
- `ProfileForm`, `DesignForm` and `ColorField`: image size checks, thumbnail generation and the colour grammar live in packages that are not part of this model.
- Hashing, salting, `int_to_base36`, the token generator and the mailer are library code. They are left abstract (`Credential.Hashed`, function parameters), and sending a mail is modelled as returning it.
- Profiles.ThumbnailName: `thumbnail_basepath()` belongs to the thumbnails package, so it is a parameter; `str(size)` is taken as the identity on the size keys.
- The ORM's result order and database collation: a query is the table, filtered, in table order, and string comparison is exact.
- `getattr` failures in `get_dict_by_related`: the related value is a total function `key`.
- Listeners.Database.CreateProfile: a failure of the savepoint calls themselves is not modelled, nor is the error log line; only the failing `profile.save()` is.
- The global `Site.objects.get_current()`: it is a `Site`/`domain` parameter.
- Reversing route names into paths: only the reset link is built, as `ConfirmPath`.
- The extra view arguments `login_kwargs` and `logout_kwargs` (users/urls.py:35-41, passed at users/urls.py:47-48): a `Resolution` carries only the groups the pattern captures, not the dicts Django merges into the view's keyword arguments.
- Accounts.ResetMailFor: the template context's `user` entry (users/forms.py:280) is not a field of `ResetMail`, and the subject is the untranslated string, while users/forms.py:274 passes it through `_()`; translation is library code.
