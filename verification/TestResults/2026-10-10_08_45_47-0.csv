TestResult.DisplayName,TestResult.Outcome,TestResult.Duration,TestResult.ResourceCount,RandomSeed
LevelManager.PutKeepsValid (correctness),Failed,00:00:06.3481143,2030102,2
