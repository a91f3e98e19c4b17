/** types.ts: the records the blog stores. Optional TypeScript fields become `Option`, except
    where every reader substitutes a default: absent `comments` read as `[]`, absent
    `featured` as `false` and absent `likes` as `0` everywhere in the code, so those are
    plain fields. */
module Types {
  import opened Wrappers

  datatype Comment = Comment(
    id: string,
    author: string,
    content: string,
    date: string,
    avatar: Option<string>,
    replies: seq<Comment>)

  datatype Post = Post(
    id: string,
    title: string,
    excerpt: string,
    content: string,
    coverImage: string,
    date: string,
    tags: seq<string>,
    category: string,
    author: string,
    comments: seq<Comment>,
    featured: bool,
    likes: int)

  datatype Memo = Memo(
    id: string,
    content: string,
    date: string,
    images: Option<seq<string>>,
    tags: Option<seq<string>>)

  datatype FriendLink = FriendLink(
    id: string,
    name: string,
    url: string,
    avatar: Option<string>,
    description: Option<string>,
    category: Option<string>)

  datatype Priority = Low | Medium | High

  datatype Todo = Todo(id: string, text: string, completed: bool, priority: Priority, date: string)

  datatype Schedule = Schedule(id: string, title: string, time: string, date: string, description: Option<string>)

  datatype ViewMode =
    | Home | Categories | PostView | Profile | Friends | Memos | Dashboard
    | AdminLogin | AdminDashboard | AdminEditor | Settings
}
