/**
 * `MainLayout`: the side menu filtered by the signed-in role, the user
 * drop-down menu, and what choosing an entry of that drop-down does.
 */
module MainLayout {
  import opened Wrappers
  import Lists

  const Admin := "ADMIN"
  const User := "USER"

  /** An entry of the side menu; `key` is the route it leads to. */
  datatype MenuItem = MenuItem(key: string, caption: string, roles: seq<string>)

  /** `allMenuItems`: the dashboard for everyone, the three management pages for administrators. */
  const AllMenuItems: seq<MenuItem> := [
    MenuItem("/", "대시보드", [Admin, User]),
    MenuItem("/books", "도서 관리", [Admin]),
    MenuItem("/members", "회원 관리", [Admin]),
    MenuItem("/loans", "대출 관리", [Admin])
  ]

  /** `item.roles.includes(role)`; a missing role (`null`) is in no list. */
  predicate Shown(role: Option<string>, item: MenuItem)
  {
    role.Some? && role.value in item.roles
  }

  /** `menuItems = allMenuItems.filter(item => item.roles.includes(role))`. */
  function SideMenu(role: Option<string>): (items: seq<MenuItem>)
    ensures |items| <= |AllMenuItems|
    ensures forall i :: 0 <= i < |items| ==> Shown(role, items[i])
    ensures role.None? ==> items == []
  {
    var items := Lists.Filter(AllMenuItems, item => Shown(role, item));
    assert items != [] ==> Shown(role, items[0]);
    items
  }

  /** The side menu shows exactly the items for the role, in their declared order. */
  lemma SideMenuKeepsRoleItemsInOrder(role: Option<string>)
    ensures Lists.IsSubsequence(SideMenu(role), AllMenuItems)
    ensures forall item :: item in SideMenu(role) <==> item in AllMenuItems && Shown(role, item)
  {
    Lists.FilterKeepsExactlyPassing(AllMenuItems, item => Shown(role, item));
  }

  /** An administrator sees all four entries, a user only the dashboard, anyone else nothing. */
  lemma SideMenuByRole(role: Option<string>)
    ensures role == Some(Admin) ==> SideMenu(role) == AllMenuItems
    ensures role == Some(User) ==> SideMenu(role) == [AllMenuItems[0]]
    ensures role != Some(Admin) && role != Some(User) ==> SideMenu(role) == []
  {
    var p := item => Shown(role, item);
    var items := AllMenuItems;
    var i1, i2, i3 := items[1..], items[2..], items[3..];
    assert i1[1..] == i2 && i2[1..] == i3 && i3[1..] == [];
    assert Lists.Filter(i3, p) == (if p(items[3]) then [items[3]] else []);
    assert Lists.Filter(i2, p) == (if p(items[2]) then [items[2]] else []) + Lists.Filter(i3, p);
    assert Lists.Filter(i1, p) == (if p(items[1]) then [items[1]] else []) + Lists.Filter(i2, p);
    assert SideMenu(role) == (if p(items[0]) then [items[0]] else []) + Lists.Filter(i1, p);
  }

  /** An entry of the user drop-down: a clickable item or a divider. */
  datatype UserMenuEntry = Item(key: string, caption: string, danger: bool) | Divider

  const Profile := Item("profile", "내 정보", false)
  const Settings := Item("settings", "설정", false)
  const Withdraw := Item("withdraw", "회원탈퇴", false)
  const LogoutItem := Item("logout", "로그아웃", true)

  /**
   * The drop-down as `getUserMenuItems` builds it: profile and settings
   * first, withdrawal only for a user, then a divider and logout.
   */
  function UserMenu(role: Option<string>): (entries: seq<UserMenuEntry>)
    ensures |entries| == if role == Some(User) then 5 else 4
    ensures entries[0] == Profile && entries[1] == Settings
    ensures entries[|entries| - 2] == Divider && entries[|entries| - 1] == LogoutItem
    ensures Withdraw in entries <==> role == Some(User)
  {
    [Profile, Settings] + (if role == Some(User) then [Withdraw] else []) + [Divider, LogoutItem]
  }

  /** `getUserMenuItems()`, pushing onto the base list. */
  method GetUserMenuItems(role: Option<string>) returns (entries: seq<UserMenuEntry>)
    ensures entries == UserMenu(role)
  {
    entries := [Profile, Settings];
    if role == Some(User) {
      entries := entries + [Withdraw];
    }
    entries := entries + [Divider, LogoutItem];
  }

  /** What a click leads to: the context's `logout()`, a toast, or a navigation. */
  datatype Effect = CallLogout | SuccessToast(text: string) | InfoToast(text: string) | Navigate(path: string)

  /** `handleUserMenuClick({ key })`. */
  function UserMenuClick(key: string): (effects: seq<Effect>)
    ensures key == "logout" ==> |effects| == 3 && effects[0] == CallLogout && effects[2] == Navigate("/login")
    ensures key == "profile" ==> effects == [Navigate("/profile")]
    ensures key == "settings" ==> effects == [Navigate("/settings")]
    ensures CallLogout in effects <==> key == "logout"
    ensures effects == [] <==> key !in {"logout", "profile", "settings", "withdraw"}
  {
    if key == "logout" then [CallLogout, SuccessToast("로그아웃되었습니다."), Navigate("/login")]
    else if key == "profile" then [Navigate("/profile")]
    else if key == "settings" then [Navigate("/settings")]
    else if key == "withdraw" then [InfoToast("회원탈퇴 기능은 추후 구현 예정입니다.")]
    else []
  }

  /** Every item the drop-down offers, to any role, has a handler; withdrawal only shows a notice. */
  lemma EveryUserMenuItemIsHandled(role: Option<string>)
    ensures forall e :: e in UserMenu(role) && e.Item? ==> UserMenuClick(e.key) != []
    ensures forall e :: e in UserMenu(role) && e.Item? && e.key == "withdraw" ==>
              forall f :: f in UserMenuClick(e.key) ==> f.InfoToast?
  {
  }

  /** The fields of the auth context the layout reads. */
  datatype AuthContextValue = AuthContextValue(username: Option<string>, role: Option<string>)

  /** What the layout draws: its two menus. */
  datatype Layout = Layout(sideMenu: seq<MenuItem>, userMenu: seq<UserMenuEntry>)

  /** The component: nothing at all without an auth context, otherwise both menus for its role. */
  function Render(context: Option<AuthContextValue>): (r: Option<Layout>)
    ensures r.None? <==> context.None?
    ensures r.Some? ==> r.value.sideMenu == SideMenu(context.value.role)
                        && r.value.userMenu == UserMenu(context.value.role)
  {
    match context
    case None => None
    case Some(c) => Some(Layout(SideMenu(c.role), UserMenu(c.role)))
  }
}
