/**
 * The initial skill list of the store (src/lib/mock-data.ts), which `reset`
 * restores.
 */
module MockData {
  import opened SkillTypes

  function SkillNodes(): (r: seq<SkillNode>)
    ensures |r| == 11
  {
    [ SkillNode("python", "Python", "🐍", Strong, 0.95, ["pandas", "ai"]),
      SkillNode("pandas", "Pandas", "🧮", Learning, 0.7, ["python", "numpy"]),
      SkillNode("numpy", "NumPy", "🔢", Planned, 0.2, ["pandas"]),
      SkillNode("ai", "AI Foundations", "🧠", Learning, 0.6, ["python", "ml"]),
      SkillNode("ml", "Machine Learning", "🤖", Planned, 0.35, ["ai", "dl"]),
      SkillNode("dl", "Deep Learning", "🌐", Planned, 0.18, ["ml"]),
      SkillNode("cpp", "C++", "🛠️", Strong, 0.8, ["algorithms"]),
      SkillNode("algorithms", "Algorithms", "🧩", Learning, 0.5, ["cpp", "ai"]),
      SkillNode("frontend", "Frontend", "🎨", Learning, 0.65, ["react", "three"]),
      SkillNode("react", "React", "⚛️", Strong, 0.9, ["frontend", "three"]),
      SkillNode("three", "Three.js", "🪐", Planned, 0.25, ["frontend", "react"]) ]
  }
}
