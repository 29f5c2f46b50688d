/** The constant keyword lists of the relevance classifier (fetch_news.py:38-123)
    and the vocabulary of the trusted-author test (fetch_news.py:256-262). */
module Keywords {

  /** Core terms: any one of them marks a text as on-topic. */
  const CoreKeywords: seq<string> := [
    "东方project", "東方project", "touhou project", "touhou",
    "トウホウ", "とうほう",
    "幻想乡", "幻想郷", "gensokyo",
    "博丽神社", "博麗神社", "hakurei",
    "ZUN", "上海爱丽丝", "上海アリス幻樂団",
    "例大祭", "reitaisai",
    "thwiki", "THBWiki", "东方吧"
  ]

  /** Character names. */
  const CharacterKeywords: seq<string> := [
    "灵梦", "霊夢", "reimu",
    "魔理沙", "marisa",
    "咲夜", "sakuya",
    "琪露诺", "チルノ", "cirno",
    "妖梦", "妖夢", "youmu",
    "幽幽子", "yuyuko",
    "蕾米莉亚", "remilia",
    "芙兰朵露", "flandre",
    "帕秋莉", "patchouli",
    "射命丸文", "aya shameimaru",
    "河城荷取", "nitori",
    "八云紫", "八雲紫", "yukari",
    "藤原妹红", "mokou",
    "鬼人正邪", "seija",
    "古明地觉", "古明地恋", "satori", "koishi",
    "风见幽香", "yuuka",
    "四季映姬", "eiki",
    "小野塚小町", "komachi",
    "因幡帝", "tewi",
    "铃仙", "鈴仙", "reisen",
    "永琳", "eirin",
    "辉夜", "輝夜", "kaguya",
    "红美铃", "meiling",
    "爱丽丝", "alice margatroid",
    "西行寺", "saigyouji",
    "博丽", "博麗"
  ]

  /** Titles of the games. */
  const GameKeywords: seq<string> := [
    "红魔乡", "紅魔郷", "红魔馆", "紅魔館",
    "妖妖梦", "妖々夢",
    "永夜抄",
    "花映塚",
    "风神录", "風神録",
    "地灵殿", "地霊殿",
    "星莲船", "星蓮船",
    "神灵庙", "神霊廟",
    "辉针城", "輝針城",
    "绀珠传", "紺珠伝",
    "天空璋",
    "鬼形兽", "鬼形獣",
    "虹龙洞", "虹龍洞",
    "兽王园", "獣王園",
    "献华抄",
    "刚欲异闻",
    "东方红魔乡", "东方妖妖梦", "东方永夜抄",
    "东方风神录", "东方地灵殿", "东方星莲船",
    "东方神灵庙", "东方辉针城", "东方绀珠传",
    "东方天空璋", "东方鬼形兽", "东方虹龙洞",
    "东方兽王园", "东方献华抄", "东方刚欲异闻"
  ]

  /** Music and fan-work terms. */
  const MusicKeywords: seq<string> := [
    "东方arrange", "东方编曲", "东方同人音乐",
    "U.N.オーエンは彼女なのか", "ネクロファンタジア",
    "bad apple", "色は匂へど散りぬるを",
    "东方vocal", "东方remix",
    "秘封俱乐部", "秘封倶楽部"
  ]

  /** Unrelated brands that share the ambiguous root "东方"; each vetoes a text
      unless an override marker is present. */
  const BlacklistKeywords: seq<string> := [
    "东方卫视", "东方财富", "东方航空", "东方明珠",
    "东方雨虹", "东方电气", "东方证券", "东方通信",
    "东方园林", "东方日升", "东方盛虹", "东方铁塔",
    "东方美食", "东方甄选", "东方不败",
    "orient", "oriental securities"
  ]

  /** The union of the four positive groups, in the source's order. */
  const PositiveKeywords: seq<string> := CoreKeywords + CharacterKeywords + GameKeywords + MusicKeywords

  /** The specific terms the weak-root branch re-checks. */
  const SpecificKeywords: seq<string> := CharacterKeywords + GameKeywords + MusicKeywords

  /** The vocabulary that makes a post of the trusted author's feed worth keeping.
      The source lists "公開" twice; the duplicate is kept. */
  const ZunKeywords: seq<string> := [
    "新作", "体験版", "体験", "完成", "入稿", "發售", "公開", "发布", "発売", "発表", "告知", "リリース",
    "例大祭", "コミケ", "夏コミ", "冬コミ", "reitaisai",
    "release", "steam", "配信", "公開", "interview", "インタビュー",
    "トウホウ", "とうほう", "touhou", "東方", "touhou project", "東方project"
  ]

  /** The two markers whose presence cancels every blacklist hit. */
  const OverrideMarkers: seq<string> := ["project", "zun"]

  /** The ambiguous two-character root, in simplified and traditional script. */
  const WeakRootSimplified: string := "东方"
  const WeakRootTraditional: string := "東方"

  /** The marker of an embedded image in a post. */
  const ImageMarker: string := "<img"
}
